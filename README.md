# CourseCraftAI core, modelled in Dafny

CourseCraftAI generates a week-by-week study plan (a *course*) for a signed-in
user. It stores the plan in MongoDB and shows it in a React front end as a
vertical roadmap of module nodes. The user ticks modules off there until the
whole course is completed.

This project models the parts of the system that hold its logic:

- **The course endpoints of the FastAPI back end** (`course_api.dfy`):
  - `GET /api/courses/my` lists the caller's courses, at most 100.
  - `GET /api/courses/{id}` returns one course the caller owns.
  - `PATCH /api/courses/{id}/complete/{module}` marks a module completed. When no module is left pending, it completes the whole course.
  - `DELETE /api/courses/{id}` removes a course.
- **What those endpoints run on:**
  - The course collection is a class over a sequence of documents (`course_collection.dfy`). It has first-match `find_one`, `find(...).to_list(length)`, `update_one` with the positional `$` operator, and `delete_one`, with `_id` unique.
  - BSON ObjectIds are 24 hexadecimal characters, parsed into twelve bytes and rendered back in lower case (`object_id.dfy`).
- **The roadmap graph builder `getFlowElements`** (`course_flow.dfy`). It is a loop over the modules that builds one node per module and one edge between consecutive modules. Each edge's animation, label and colour follow the completion state of the module it leads into.
- **The free-text roadmap** (`course_roadmap.dfy`). It splits the outline on `\d\.\s` exactly as `String.prototype.split` scans for matches, drops the pieces that `trim()` leaves empty, and cycles the three icons over the steps.
- **The two React contexts:**
  - The session (`auth_context.dfy`) is a token kept in state and mirrored in `localStorage`. `login` and `logout` keep the two in step, and `logout` sends the user to `/login`.
  - The theme (`theme_context.dfy`) is read from `localStorage` or defaults to light. It is toggled, then applied by an effect that swaps the root element's `light`/`dark` class and stores the theme.
  - Both are classes over the browser objects of `browser.dfy`: `localStorage` as a map, and the root's `classList` as a set of tokens whose `add` rejects invalid tokens.

Where the code mutates state, the model is a class with fields and
`modifies` clauses. On the front end this covers the two providers, the
storage and the class list; on the back end, the MongoDB collection. Each
method is specified by a function of the old state, and the properties are
proved about those functions. The pure parts are functions
with lemmas about them: the split, filter and icon choice, the ObjectId codec
and the edge list.

## Model

| member | source | states |
|---|---|---|
| CourseFlow.GetFlowElements | frontend/src/hooks/useCourseFlow.js:14-61 | A missing course, missing modules or an empty module list give no nodes and no edges. Otherwise there is exactly one node per module, in order. Node `i` has the module's id, position (0, 170·i), the label "Week w: title", the module's description, resources and completion flag, the handler and the module id. Its type is `input` for the first module only, and its size is 250×120. The nodes go strictly downwards. The edges are exactly `EdgesOf(modules)`. |
| CourseFlow.EdgesConnectConsecutiveModules | frontend/src/hooks/useCourseFlow.js:44-57 | Every edge runs from module i-1, whose id is non-empty, into module i. Its id is `e-<source>-<target>`. It is animated exactly when the target module is not completed. Its label is "Completed"/"Next Up" and its stroke width 3/2, following the target's completion. |
| CourseFlow.ConsecutiveModulesAreConnected | frontend/src/hooks/useCourseFlow.js:44-57 | Conversely, every consecutive pair whose first module has a truthy id gets its edge. |
| CourseFlow.EdgeCountBound | frontend/src/hooks/useCourseFlow.js:44-57 | At most one edge per consecutive pair: at most n-1 edges for n modules. |
| CourseFlow.EdgesWhenIdsPresent | frontend/src/hooks/useCourseFlow.js:44-57 | When the modules have non-empty ids, there are exactly n-1 edges, and edge i joins module i to module i+1. |
| CourseFlow.NatDigitsRoundTrip | frontend/src/hooks/useCourseFlow.js:33 | The week number in the label is a canonical decimal. It is made of digits only, has no leading zero, and reads back as the number. |
| CourseFlow.Label | frontend/src/hooks/useCourseFlow.js:33 | The node label starts with "Week " and ends with ": " followed by the module title. Everything between those two parts is exactly the decimal rendering of the week number (`NatDigitsRoundTrip` states that the rendering reads back as the same number). |
| CourseFlow.NodeYIncreasing | frontend/src/hooks/useCourseFlow.js:22-58 | Nodes further down the module list sit strictly lower. |
| CourseFlow.ProgressScenario | frontend/src/hooks/useCourseFlow.js:51-53 | With three modules and only the first completed, both edges are animated. Completing the second stops the animation of the edge into it only. |
| ObjectIds.Parse | backend/main.py:199-203 | A course id is accepted exactly when it is 24 hexadecimal characters (either case). An accepted id decodes to twelve bytes. |
| ObjectIds.ToHex | backend/main.py:26 | `str` of an ObjectId has two characters per byte, each a lower-case hexadecimal digit. |
| ObjectIds.ParseToHex | backend/main.py:26 | Rendering a twelve-byte ObjectId as a string gives a valid id, and parsing that id gives the ObjectId back. |
| ObjectIds.ToHexParse | backend/main.py:199-203 | Parsing a valid id and rendering it again gives the id in lower case, so ids that differ only in letter case name the same course. |
| CourseCollection.FirstMatch | backend/main.py:202-205 | The index of the first document matching the query, with no earlier document matching. It is none exactly when no document matches. |
| CourseCollection.FirstModule | backend/main.py:221-224 | The module the positional `$` picks: the first module with that id, none exactly when the course has no such module. |
| CourseCollection.CompleteFirstModule | backend/main.py:221-224 | The positional update marks completed the first module with the matched id and changes no other module. |
| CourseCollection.Take | backend/main.py:189 | `to_list(length)` yields a prefix of the results of length exactly min(number of results, `length`), so it yields all of them when there are no more. |
| CourseCollection.FilteredMembers | backend/main.py:188 | `find` yields exactly the documents that match the query. |
| CourseCollection.UpdatedOneKeepsIds | backend/main.py:221-224 | `update_one` keeps the number of documents and every `_id`, and so keeps the `_id`s unique. |
| CourseCollection.DeletedOneKeepsUniqueIds | backend/main.py:255-258 | `delete_one` keeps the `_id`s unique. |
| CourseCollection.Collection.FindOne | backend/main.py:202-205 | `find_one` returns none exactly when no document matches. Otherwise it returns the first matching document. |
| CourseCollection.Collection.Find | backend/main.py:188-189 | `find(...).to_list(length)` returns the first `length` matching documents, in collection order. |
| CourseCollection.Collection.UpdateOne | backend/main.py:221-224 | `update_one` updates the first matching document as the update document says and nothing else. Its match count is 1 or 0, and `_id`s stay unique. |
| CourseCollection.Collection.DeleteOne | backend/main.py:255-258 | `delete_one` removes the first matching document and nothing else. Its deletion count is 1 or 0. |
| CourseApi.GetMyCourses | backend/main.py:184-191 | At most 100 items. They are the caller's courses in collection order, each with its id, title and completion flag. When fewer than 100 are listed, every course the caller owns is listed. |
| CourseApi.MyCoursesAsWrittenFailsForOwners | backend/main.py:184-191 | As declared, the listing's response model needs `course_title`, which stored courses lack. So the listing is an internal server error for every user who owns a course. |
| CourseApi.MyCoursesAsWritten | backend/main.py:184-191 | As declared, the listing succeeds exactly when every one of the up to 100 documents found carries `course_title`. Otherwise it is a 500 error. On success there is one item per document found, at most 100, and item i is built from the i-th document found: its `_id` as 24 lower-case hex digits, its `course_title` and its `is_completed` flag. |
| CourseApi.GetCourseDetail | backend/main.py:194-210 | A malformed id gives 400 "Invalid Course ID format". A valid id gives the course exactly when the caller owns a course with that id, with its id rendered as a string. Otherwise it gives 404 "Course not found or access denied". |
| CourseApi.CompleteModule | backend/main.py:212-240 | The response and the new collection are those of `CompleteSpec`: first the module update, then the check for pending modules, then the course update. The `_id`s stay unique. |
| CourseApi.CompleteRejectsInvalidId | backend/main.py:218-219 | A malformed id gives 400 and changes nothing. |
| CourseApi.CompleteNotFound | backend/main.py:221-227 | When the caller owns no course with that id holding that module, the answer is 404 "Course or module not found, or access denied" and nothing changes. |
| CourseApi.CompleteSucceeds | backend/main.py:221-240 | Otherwise the answer is the success message. Only that course changes. The first module with that id becomes completed and every other module keeps its state. The course is completed exactly when it already was or no module is left pending. |
| CourseApi.CompleteIsIdempotent | backend/main.py:221-227 | Completing a module whose first occurrence (the one the positional `$` update picks) is already completed succeeds again and leaves the modules as they were. |
| CourseApi.CompleteNeverResets | backend/main.py:212-240 | Whatever the outcome, no course and no module goes from completed back to pending, and the documents and their ids stay in place. |
| CourseApi.DeleteCourse | backend/main.py:243-263 | The response and the new collection are those of `DeleteSpec`, and the `_id`s stay unique. |
| CourseApi.DeleteRemovesOnlyTheOwnedCourse | backend/main.py:251-263 | A malformed id gives 400 and changes nothing. Deletion succeeds exactly when the caller owns a course with that id; otherwise the answer is 404 and nothing changes. On success exactly that course is gone: one document fewer, all others kept, and the caller's listing no longer holds it. |
| CourseRoadmap.SplitCounts | frontend/src/CourseRoadmap.jsx:9 | Splitting yields one more piece than matches removed, and every removed match is a digit, a dot and a whitespace character. |
| CourseRoadmap.Split | frontend/src/CourseRoadmap.jsx:9 | `split(/\d\.\s/)` yields one more piece than matches. No piece holds a match, and putting the matches back between the pieces gives the outline. |
| CourseRoadmap.SplitRejoins | frontend/src/CourseRoadmap.jsx:9 | Putting the removed matches back between the pieces gives the outline again. |
| CourseRoadmap.PiecesHaveNoDelimiter | frontend/src/CourseRoadmap.jsx:9 | No piece contains a match of the pattern. |
| CourseRoadmap.TrimEmptyIffBlank | frontend/src/CourseRoadmap.jsx:9 | `trim()` gives the empty (falsy) string exactly when the piece is all whitespace. |
| CourseRoadmap.TrimStart | frontend/src/CourseRoadmap.jsx:9 | The leading half of `trim()`: a suffix of the piece that does not start with whitespace, and everything dropped before it is whitespace. |
| CourseRoadmap.TrimEnd | frontend/src/CourseRoadmap.jsx:9 | The trailing half of `trim()`: a prefix of the piece that does not end with whitespace, and everything dropped after it is whitespace. |
| CourseRoadmap.Trim | frontend/src/CourseRoadmap.jsx:9 | `trim()` gives a slice of the piece with only whitespace before it and only whitespace after it (`BlankAround`). The slice neither starts nor ends with whitespace, and it is the empty string for an all-whitespace piece. |
| CourseRoadmap.KeepNonBlankMembers | frontend/src/CourseRoadmap.jsx:9 | The filter keeps exactly the pieces that are not all whitespace, and never adds any. |
| CourseRoadmap.KeepNonBlank | frontend/src/CourseRoadmap.jsx:9 | `filter(step => step.trim())` yields no more pieces than it is given. Which pieces it keeps is stated by `KeepNonBlankMembers`, and their order by `KeepNonBlankAppend`. |
| CourseRoadmap.KeepNonBlankAppend | frontend/src/CourseRoadmap.jsx:9 | The filter works piece by piece: filtering a concatenation is concatenating the filtered parts, so order and repeats are kept. |
| CourseRoadmap.StepsArePieces | frontend/src/CourseRoadmap.jsx:9 | Every step is a piece of the split that is not blank and holds no match, and there are at most one more step than matches. |
| CourseRoadmap.Roadmap | frontend/src/CourseRoadmap.jsx:6-18 | Nothing is rendered exactly for a missing or empty outline. Otherwise there is one card per step, and card i shows step i with icon i mod 3 of [BookOpen, Code, Laptop]. |
| CourseRoadmap.RoadmapCards | frontend/src/CourseRoadmap.jsx:6-18 | Nothing is rendered exactly when the outline is missing or empty. Otherwise there are at most one more card than matches. Card i uses icon i mod 3 of [BookOpen, Code, Laptop], and shows a piece of the split that is not blank and holds no match. |
| Browser.LocalStorage.GetItem | frontend/src/context/AuthContext.jsx:8 | Reading gives the stored value exactly when the key is present, and `null` otherwise. |
| Browser.LocalStorage.SetItem | frontend/src/context/AuthContext.jsx:15 | Storing sets that key to the value and leaves every other key alone. |
| Browser.LocalStorage.RemoveItem | frontend/src/context/AuthContext.jsx:22 | Removing drops that key and leaves every other key alone. |
| Browser.ClassList.Remove | frontend/src/context/ThemeContext.jsx:16 | `remove('light', 'dark')` leaves exactly the old set of classes without those two tokens. |
| Browser.ClassList.Add | frontend/src/context/ThemeContext.jsx:19 | Adding succeeds exactly for a non-empty token without ASCII whitespace. The empty token fails with SyntaxError and the others with InvalidCharacterError, and only a success adds the token. |
| AuthContext.LoginSyncs | frontend/src/context/AuthContext.jsx:10-18 | After `login(t)` the state token and the stored token agree, and the session is logged in exactly when t is not empty. |
| AuthContext.LogoutIsFinal | frontend/src/context/AuthContext.jsx:21-26 | After `logout()` nothing is stored, nobody is logged in and the route is `/login`. Logging out again changes nothing. |
| AuthContext.AuthProvider.constructor | frontend/src/context/AuthContext.jsx:8-10 | On mount the token is the stored one and there is no user, so state and storage agree. |
| AuthContext.AuthProvider.IsLoggedIn | frontend/src/context/AuthContext.jsx:10 | `isLoggedIn = !!token`: logged in exactly when the token is present and not the empty string. |
| AuthContext.AuthProvider.Login | frontend/src/context/AuthContext.jsx:14-18 | Stores the token under `token` and sets it as state. User and route are unchanged. Afterwards `isLoggedIn` holds exactly when the token is not the empty string. |
| AuthContext.AuthProvider.Logout | frontend/src/context/AuthContext.jsx:21-26 | Removes the stored token, clears token and user, and moves to `/login`. Afterwards `isLoggedIn` is false. |
| AuthContext.AuthProvider.SetToken | frontend/src/context/AuthContext.jsx:8 | The exposed setter changes the state token only, not storage. |
| ThemeContext.InitialTheme | frontend/src/context/ThemeContext.jsx:7-9 | The initial theme is never empty. It is the stored theme when one is stored and non-empty, and `light` otherwise. |
| ThemeContext.Toggled | frontend/src/context/ThemeContext.jsx:27 | The toggle updater always yields `light` or `dark`, never the theme it is given, and `light` from every theme other than `light`. |
| ThemeContext.ToggleSwaps | frontend/src/context/ThemeContext.jsx:26-28 | Toggling always lands on `light` or `dark` and always changes the theme. On those two themes, toggling twice gives the theme back. |
| ThemeContext.AppliedClasses | frontend/src/context/ThemeContext.jsx:16-19 | After the effect the root has the theme's class, has `light`/`dark` only when that is the theme, and keeps every other class. |
| ThemeContext.ThemeProvider.constructor | frontend/src/context/ThemeContext.jsx:7-9 | On mount the theme is `InitialTheme` of what is stored. |
| ThemeContext.ThemeProvider.ToggleTheme | frontend/src/context/ThemeContext.jsx:26-28 | The theme becomes its toggle. |
| ThemeContext.ThemeProvider.ApplyTheme | frontend/src/context/ThemeContext.jsx:12-23 | The effect succeeds exactly when the theme is a valid class token. Then the root classes are `AppliedClasses` and the theme is stored. When `classList.add` throws, the root has only lost `light`/`dark` and nothing is stored. |

## Left out

- Sign-up, log-in (`/signup`, `/token`) and `generate_course` with its language-model and YouTube curation services are not part of this model. They produce the stored documents the model starts from. The same goes for the configuration, the database connection module and `apiClient.js`.
- `get_current_user` (decoding the bearer token, 401 responses) is not modelled. The caller's user id is a parameter of every endpoint.
- Concurrency: each endpoint runs alone on the collection. In the source, `complete_module`'s update and its check for pending modules are separate, non-atomic calls.
- CourseApi.GetMyCourses: states the corrected behaviour (items carry the stored `title`), not the 500 the declared response model produces. That behaviour is modelled separately; see Findings.
- ObjectIds.Parse: accepts exactly the strings of 24 hexadecimal digits. pymongo's `is_valid` decodes a 24-character string with `bytes.fromhex`, which skips whitespace before each hex pair, so it also accepts an id such as `"00 00 00 00 00 00 00 00 "` (decoded to eight bytes), and the endpoints then query with it. The model refuses such ids with 400 where the source goes on to the query.
- Response serialisation beyond the fields the models keep is not modelled. For example, `CourseOut` drops the course's `is_completed` and JSON encoding is left out.
- React: state updates take effect immediately, with no batching or re-render scheduling. `useCallback` memoisation, the empty token-checking effect and all markup, motion props and styling classes are not modelled.
- Navigation is modelled as the current route only; history is not modelled. `AuthContext.jsx` calls `useNavigate` without importing it; the model assumes it resolves.
- CourseFlow.GetFlowElements: module fields are typed as the back end stores them. A missing `id` or `is_completed` (JavaScript `undefined`) is not modelled, and the handler is an opaque value.
- CourseFlow.Label: renders the week as an exact decimal integer. JavaScript formats a `Number`, so a week of 10^21 or more would print in exponent form, and one above 2^53 has already lost precision when the JSON was parsed. Week numbers in a plan are small.
- CourseRoadmap.Roadmap: the outline is a string or missing. A truthy non-string value, on which `split` would throw, is not modelled. Strings are sequences of code points; every whitespace character of `\s` lies in the Basic Multilingual Plane, so the split agrees with UTF-16 scanning.
- Browser.ClassList: the class list is a set, so token order in the `class` attribute is not modelled.
- The pages (`Dashboard.jsx`, `CourseDetail.jsx`), `App.jsx` and the form and result components are presentation code over the modelled operations and are not part of this model.

## Findings

| source | as written | input that shows it | evidently intended | confidence | as-written member | corrected member |
|---|---|---|---|---|---|---|
| backend/main.py:51-54, 184-191 | `get_my_courses` declares `response_model=List[CourseListItem]`, whose `course_title` is required. Stored courses are dumped from `CourseOut` (main.py:175-176) and carry `title`, never `course_title`. | Any user who owns one course created by `generate_course` calls `GET /api/courses/my`. | Each owned course is listed with its id, its stored title and its completion flag. | medium, not executed | CourseApi.MyCoursesAsWrittenFailsForOwners | CourseApi.GetMyCourses |
