/** The base class of the validators: the attributes every validator starts
    with, the abstract `validate`, and the console message format. */
module Validators {
  import opened Common

  /** The Python values an attribute of a validator can hold. */
  datatype PyVal = NoneVal | Str(s: string) | StrList(items: seq<string>) | Flag(b: bool)

  /** Python truthiness: None, an empty string, an empty list and False are
      false. */
  predicate Truthy(v: PyVal) {
    match v
    case NoneVal => false
    case Str(s) => |s| > 0
    case StrList(items) => |items| > 0
    case Flag(b) => b
  }

  /** What `for x in v` visits: the characters of a string, the items of a
      list; None and booleans are not iterable. */
  function Iterate(v: PyVal): (r: Option<seq<string>>)
    ensures r.Some? <==> v.Str? || v.StrList?
    ensures v.Str? ==> |r.value| == |v.s| && forall i :: 0 <= i < |v.s| ==> r.value[i] == [v.s[i]]
    ensures v.StrList? ==> r.value == v.items
  {
    match v
    case Str(s) => Some(seq(|s|, i requires 0 <= i < |s| => [s[i]]))
    case StrList(items) => Some(items)
    case _ => None
  }

  /** The strings of `parts`, one after the other. */
  function Concat(parts: seq<string>): string
    decreases |parts|
  {
    if |parts| == 0 then "" else Concat(parts[..|parts| - 1]) + parts[|parts| - 1]
  }

  /** Iterating a string visits it one character at a time: the pieces are
      single characters and, put back together, give the string. */
  lemma {:induction false} IterateConcat(s: string)
    ensures Iterate(Str(s)).Some?
    ensures forall i :: 0 <= i < |Iterate(Str(s)).value| ==> |Iterate(Str(s)).value[i]| == 1
    ensures Concat(Iterate(Str(s)).value) == s
    decreases |s|
  {
    if |s| > 0 {
      var init := s[..|s| - 1];
      IterateConcat(init);
      var pieces := Iterate(Str(s)).value;
      assert pieces[..|pieces| - 1] == Iterate(Str(init)).value;
      assert s == init + [s[|s| - 1]];
    }
  }

  /** The attributes the base constructor sets, all to None. */
  const ATTRIBUTE_NAMES: set<string> := {"name", "id_key", "lat_key", "lon_key", "fill_in_new_values", "attributes"}

  function Defaults(): (r: map<string, PyVal>)
    ensures r.Keys == ATTRIBUTE_NAMES
    ensures forall k :: k in r ==> r[k] == NoneVal
  {
    map k | k in ATTRIBUTE_NAMES :: NoneVal
  }

  /** `Validator`: the instance attributes, name to value. */
  class Validator {
    var attrs: map<string, PyVal>

    /** `Validator(*args, **kwargs)`: the arguments are ignored and the six
        attributes are None. */
    constructor ()
      ensures attrs.Keys == ATTRIBUTE_NAMES
      ensures forall k :: k in attrs ==> attrs[k] == NoneVal
    {
      attrs := Defaults();
    }

    /** The abstract `validate` always raises NotImplementedError. */
    method Validate() returns (r: Result<()>)
      ensures r == Err(NotImplementedError)
    {
      r := Err(NotImplementedError);
    }
  }

  const MESSAGE_SEP: string := " - "

  /** `Validator.message(*args)`: the line printed, the arguments joined by
      " - " in order. */
  function Message(args: seq<string>): string {
    Join(args, MESSAGE_SEP)
  }

  /** One argument is printed as it is; more are printed with " - " between
      each argument and the next. */
  lemma {:induction false} MessageAppend(a: seq<string>, b: seq<string>)
    requires |a| > 0 && |b| > 0
    ensures Message(a + b) == Message(a) + MESSAGE_SEP + Message(b)
    decreases |a|
  {
    if |a| == 1 {
      assert (a + b)[0] == a[0] && (a + b)[1..] == b;
    } else {
      MessageAppend(a[1..], b);
      assert (a + b)[0] == a[0] && (a + b)[1..] == a[1..] + b;
    }
  }

  /** The printed line is as long as the arguments plus three characters per
      separator. */
  lemma {:induction false} MessageLength(args: seq<string>)
    requires |args| > 0
    ensures |Message(args)| == SumLengths(args) + 3 * (|args| - 1)
    decreases |args|
  {
    if |args| > 1 {
      MessageLength(args[1..]);
    }
  }

  function SumLengths(args: seq<string>): nat
    decreases |args|
  {
    if |args| == 0 then 0 else |args[0]| + SumLengths(args[1..])
  }
}
