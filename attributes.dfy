/** The mandatory-attributes validator: which of the attributes it is given
    to check are present in a list object and have no missing values. */
module Attributes {
  import opened Common
  import opened Validators

  /** A `list_obj`, reduced to what the validator asks of it: the attributes
      it has, and those of them whose values are all set (`.all()`). */
  datatype ListObj = ListObj(has: set<string>, complete: set<string>)

  /** The report: attribute name to message, per section. */
  datatype Report = Report(approved: map<string, string>, disapproved: map<string, string>)

  const NO_MISSING_VALUES: string := "No missing values"
  const MISSING_VALUES: string := "WARNING! Missing values"
  const MISSING_ATTRIBUTE: string := "WARNING! Missing attribute"

  /** The keyword arguments applied in order over the base defaults, each
      one `setattr` after the other. */
  function Assigned(base: map<string, PyVal>, kwargs: seq<(string, PyVal)>): (r: map<string, PyVal>)
    ensures r.Keys == base.Keys + set i | 0 <= i < |kwargs| :: kwargs[i].0
    decreases |kwargs|
  {
    if |kwargs| == 0 then base
    else
      var last := kwargs[|kwargs| - 1];
      var r := Assigned(base, kwargs[..|kwargs| - 1])[last.0 := last.1];
      assert forall i :: 0 <= i < |kwargs| - 1 ==> kwargs[..|kwargs| - 1][i] == kwargs[i];
      r
  }

  /** The value of an attribute after construction is the one the last
      keyword argument of that name gives it, or the default when no keyword
      argument names it. */
  lemma {:induction false} AssignedGet(base: map<string, PyVal>, kwargs: seq<(string, PyVal)>, key: string, j: int)
    requires 0 <= j < |kwargs| && kwargs[j].0 == key
    requires forall i :: j < i < |kwargs| ==> kwargs[i].0 != key
    ensures Assigned(base, kwargs)[key] == kwargs[j].1
    decreases |kwargs|
  {
    if j < |kwargs| - 1 {
      AssignedGet(base, kwargs[..|kwargs| - 1], key, j);
    }
  }

  lemma {:induction false} AssignedUnnamed(base: map<string, PyVal>, kwargs: seq<(string, PyVal)>, key: string)
    requires key in base
    requires forall i :: 0 <= i < |kwargs| ==> kwargs[i].0 != key
    ensures Assigned(base, kwargs)[key] == base[key]
    decreases |kwargs|
  {
    if |kwargs| > 0 {
      AssignedUnnamed(base, kwargs[..|kwargs| - 1], key);
    }
  }

  /** Python's `dict.setdefault`: a key already present keeps its value. */
  function SetDefault(m: map<string, string>, k: string, v: string): (r: map<string, string>)
    ensures r.Keys == m.Keys + {k}
    ensures k in m ==> r[k] == m[k]
    ensures k !in m ==> r[k] == v
    ensures forall x :: x in m && x != k ==> r[x] == m[x]
  {
    if k in m then m else m[k := v]
  }

  /** The first value given for a key is the one kept: a second
      `setdefault` on the same key changes nothing. */
  lemma SetDefaultFirstWins(m: map<string, string>, k: string, v: string, w: string)
    ensures SetDefault(SetDefault(m, k, v), k, w) == SetDefault(m, k, v)
    ensures SetDefault(SetDefault(m, k, v), k, w)[k] == if k in m then m[k] else v
  {
  }

  /** The report's invariant: no attribute is in both sections, an
      approved attribute is present and complete, and a disapproved one
      carries the message that says why. */
  predicate Sound(rep: Report, obj: ListObj) {
    && rep.approved.Keys !! rep.disapproved.Keys
    && (forall x :: x in rep.approved ==>
          x in obj.has && x in obj.complete && rep.approved[x] == NO_MISSING_VALUES)
    && (forall x :: x in rep.disapproved ==>
          !(x in obj.has && x in obj.complete) &&
          rep.disapproved[x] == if x in obj.has then MISSING_VALUES else MISSING_ATTRIBUTE)
  }

  function Names(rep: Report): set<string> {
    rep.approved.Keys + rep.disapproved.Keys
  }

  /** One turn of the loop: the attribute is put in its section by
      `setdefault`, so the report stays sound and names one more attribute. */
  function Record(rep: Report, obj: ListObj, attr: string): (r: Report)
    requires Sound(rep, obj)
    ensures Sound(r, obj)
    ensures Names(r) == Names(rep) + {attr}
  {
    if attr in obj.has then
      if attr in obj.complete then rep.(approved := SetDefault(rep.approved, attr, NO_MISSING_VALUES))
      else rep.(disapproved := SetDefault(rep.disapproved, attr, MISSING_VALUES))
    else rep.(disapproved := SetDefault(rep.disapproved, attr, MISSING_ATTRIBUTE))
  }

  /** The error `validate` raises for the value of its `attributes`, if any. */
  function Refusal(a: PyVal): (r: Option<Error>)
    ensures r == None <==> Truthy(a) && Iterate(a).Some?
    ensures !Truthy(a) ==> r == Some(AssertionError)
    ensures Truthy(a) && a.Flag? ==> r == Some(TypeError)
  {
    if !Truthy(a) then Some(AssertionError)
    else if Iterate(a).None? then Some(TypeError)
    else None
  }

  /** `MandatoryAttributes`: the instance attributes, name to value. */
  class MandatoryAttributes {
    var attrs: map<string, PyVal>

    /** The base defaults, then every keyword argument set in turn. */
    constructor (kwargs: seq<(string, PyVal)>)
      ensures attrs == Assigned(Defaults(), kwargs)
    {
      attrs := Defaults();
      new;
      for i := 0 to |kwargs|
        invariant attrs == Assigned(Defaults(), kwargs[..i])
      {
        assert kwargs[..i + 1][..i] == kwargs[..i];
        attrs := attrs[kwargs[i].0 := kwargs[i].1];
      }
      assert kwargs[..|kwargs|] == kwargs;
    }

    /** `validate(list_obj)`: every listed attribute ends in exactly one
        section of the report; it is approved exactly when the list object
        has it and none of its values is missing; a disapproved attribute
        is told apart as missing or as having missing values. An unset or
        empty `attributes` fails the assertion; one that cannot be iterated
        is a TypeError. A missing `attributes` would be an AttributeError,
        but the constructor always sets it, so that branch is not reached
        from a constructed validator. */
    method Validate(obj: ListObj) returns (r: Result<Report>)
      ensures "attributes" !in attrs ==> r == Err(AttributeError)
      ensures "attributes" in attrs && Refusal(attrs["attributes"]).Some? ==>
        r == Err(Refusal(attrs["attributes"]).value)
      ensures r.Ok? <==> "attributes" in attrs && Refusal(attrs["attributes"]).None?
      ensures r.Ok? ==>
        var names := Iterate(attrs["attributes"]).value;
        && r.value.approved.Keys !! r.value.disapproved.Keys
        && r.value.approved.Keys + r.value.disapproved.Keys == set i | 0 <= i < |names| :: names[i]
      ensures r.Ok? ==> forall a :: a in r.value.approved ==>
        a in obj.has && a in obj.complete && r.value.approved[a] == NO_MISSING_VALUES
      ensures r.Ok? ==> forall a :: a in r.value.disapproved ==>
        !(a in obj.has && a in obj.complete) &&
        r.value.disapproved[a] == if a in obj.has then MISSING_VALUES else MISSING_ATTRIBUTE
    {
      if "attributes" !in attrs {
        return Err(AttributeError);
      }
      var a := attrs["attributes"];
      var refusal := Refusal(a);
      if refusal.Some? {
        return Err(refusal.value);
      }
      var names := Iterate(a).value;
      var rep := Report(map[], map[]);
      for i := 0 to |names|
        invariant Sound(rep, obj)
        invariant Names(rep) == set j | 0 <= j < i :: names[j]
      {
        rep := Record(rep, obj, names[i]);
        assert (set j | 0 <= j < i + 1 :: names[j]) == (set j | 0 <= j < i :: names[j]) + {names[i]};
      }
      r := Ok(rep);
    }
  }

  /** A validator built without an `attributes` keyword argument keeps the
      default None, so its `validate` fails the assertion. */
  lemma NoAttributesRefused(kwargs: seq<(string, PyVal)>)
    requires forall i :: 0 <= i < |kwargs| ==> kwargs[i].0 != "attributes"
    ensures "attributes" in Assigned(Defaults(), kwargs)
    ensures Refusal(Assigned(Defaults(), kwargs)["attributes"]) == Some(AssertionError)
  {
    AssignedUnnamed(Defaults(), kwargs, "attributes");
  }
}
