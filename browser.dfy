/** The two browser objects the context providers mutate: the origin's
    `localStorage` and the class list of the document's root element. */
module Browser {
  import opened Wrappers

  /** `window.localStorage`: string keys mapped to string values. */
  class LocalStorage {
    var items: map<string, string>

    constructor(initial: map<string, string>)
      ensures items == initial
    {
      items := initial;
    }

    /** The value stored under `key`, or `null`. */
    function Lookup(key: string): Option<string>
      reads this
    {
      if key in items then Some(items[key]) else None
    }

    /** `getItem(key)`. */
    method GetItem(key: string) returns (v: Option<string>)
      ensures v == Lookup(key)
      ensures v.Some? <==> key in items
      ensures v.Some? ==> v.value == items[key]
    {
      v := Lookup(key);
    }

    /** `setItem(key, value)`: only that key changes. */
    method SetItem(key: string, value: string)
      modifies this
      ensures items == old(items)[key := value]
    {
      items := items[key := value];
    }

    /** `removeItem(key)`: only that key goes. */
    method RemoveItem(key: string)
      modifies this
      ensures items == old(items) - {key}
    {
      items := items - {key};
    }
  }

  /** The exceptions `DOMTokenList.add` throws for a bad token. */
  datatype DomError = SyntaxError | InvalidCharacterError

  datatype Outcome = Pass | Fail(error: DomError)

  /** ASCII whitespace as the DOM standard defines it. */
  predicate IsAsciiWhitespace(c: char)
  {
    c == '\t' || c == '\n' || c == '\U{000C}' || c == '\r' || c == ' '
  }

  /** What `DOMTokenList.add` accepts: a non-empty token without ASCII whitespace. */
  predicate ValidToken(token: string)
  {
    token != "" && forall i :: 0 <= i < |token| ==> !IsAsciiWhitespace(token[i])
  }

  /** `document.documentElement.classList`, as a set of class names. */
  class ClassList {
    var tokens: set<string>

    constructor(initial: set<string>)
      ensures tokens == initial
    {
      tokens := initial;
    }

    /** `remove(a, b)` for two valid tokens. */
    method Remove(a: string, b: string)
      requires ValidToken(a) && ValidToken(b)
      modifies this
      ensures tokens == old(tokens) - {a, b}
    {
      tokens := tokens - {a, b};
    }

    /** `add(token)`: throws, changing nothing, for an empty token or one
        holding whitespace. */
    method Add(token: string) returns (r: Outcome)
      modifies this
      ensures r.Pass? <==> ValidToken(token)
      ensures token == "" ==> r == Fail(SyntaxError)
      ensures token != "" && !ValidToken(token) ==> r == Fail(InvalidCharacterError)
      ensures tokens == if r.Pass? then old(tokens) + {token} else old(tokens)
    {
      if token == "" {
        return Fail(SyntaxError);
      }
      if !ValidToken(token) {
        return Fail(InvalidCharacterError);
      }
      tokens := tokens + {token};
      return Pass;
    }
  }
}
