/** The course records shared by the backend (the `Resource` and `Module`
    schemas of backend/main.py) and the frontend, which receives them as JSON. */
module CourseModel {

  /** A learning resource attached to a module; `kind` is the JSON key `type`. */
  datatype Resource = Resource(title: string, url: string, kind: string)

  /** One week of a course. `isCompleted` is the JSON key `is_completed`,
      `durationHours` the key `durationHours`. */
  datatype Module = Module(
    id: string,
    week: int,
    title: string,
    description: string,
    durationHours: int,
    resources: seq<Resource>,
    isCompleted: bool)

  /** Some module of `ms` still has `is_completed == false`. */
  predicate HasPendingModule(ms: seq<Module>)
  {
    exists k :: 0 <= k < |ms| && !ms[k].isCompleted
  }

  /** Some module of `ms` has the id `moduleId`. */
  predicate HasModule(ms: seq<Module>, moduleId: string)
  {
    exists k :: 0 <= k < |ms| && ms[k].id == moduleId
  }
}
