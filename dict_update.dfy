/** `recursive_dict_update(d, u)`: the entries of the mapping `u` are written
    into `d` in `u`'s order; a mapping value is merged into `d.get(k, {})`
    recursively, any other value replaces `d[k]`.  A Python dict keeps its
    keys in insertion order: assigning to a present key keeps its place, a
    new key goes last. */
module DictUpdate {
  import opened Common

  /** A Python value as the merge sees it: a mapping, its entries in
      insertion order, or any other value (the payload stands for it). */
  datatype Value = Leaf(x: int) | Dict(entries: seq<(string, Value)>)

  type Entries = seq<(string, Value)>

  // ---------------------------------------------------------------------
  // Dict entries

  function Keys(es: Entries): set<string>
    decreases |es|
  {
    if |es| == 0 then {} else Keys(es[..|es| - 1]) + {es[|es| - 1].0}
  }

  /** No key is repeated, as in any dict. */
  predicate Distinct(es: Entries)
    decreases |es|
  {
    |es| == 0 || (Distinct(es[..|es| - 1]) && es[|es| - 1].0 !in Keys(es[..|es| - 1]))
  }

  /** `d[k]`, or None when `k` is absent. */
  function Get(es: Entries, k: string): (r: Option<Value>)
    ensures r.Some? <==> k in Keys(es)
    decreases |es|
  {
    if |es| == 0 then None
    else if es[|es| - 1].0 == k then Some(es[|es| - 1].1)
    else Get(es[..|es| - 1], k)
  }

  /** `d.get(k, {})`. */
  function GetOrEmpty(o: Option<Value>): Value {
    if o.Some? then o.value else Dict([])
  }

  /** The value of every entry with key `k` replaced by `v`, in place. */
  function Replace(es: Entries, k: string, v: Value): (r: Entries)
    ensures |r| == |es| && Keys(r) == Keys(es)
    decreases |es|
  {
    if |es| == 0 then []
    else
      var init := Replace(es[..|es| - 1], k, v);
      var last := if es[|es| - 1].0 == k then (k, v) else es[|es| - 1];
      SnocTake(init, last);
      init + [last]
  }

  /** `d[k] = v`: a present key keeps its place, a new key goes last. */
  function Put(es: Entries, k: string, v: Value): (r: Entries)
    ensures Keys(r) == Keys(es) + {k}
  {
    if k in Keys(es) then Replace(es, k, v)
    else
      SnocTake(es, (k, v));
      es + [(k, v)]
  }

  lemma {:induction false} SnocTake(es: Entries, e: (string, Value))
    ensures (es + [e])[..|es|] == es && (es + [e])[|es|] == e
  {
  }

  lemma {:induction false} GetSnoc(es: Entries, e: (string, Value), k: string)
    ensures Get(es + [e], k) == if e.0 == k then Some(e.1) else Get(es, k)
  {
    SnocTake(es, e);
  }

  /** After `d[k] = v` the key `k` holds `v` and every other key what it held. */
  lemma {:induction false} GetReplace(es: Entries, k: string, v: Value, k': string)
    ensures Get(Replace(es, k, v), k') == if k' == k && k in Keys(es) then Some(v) else Get(es, k')
    decreases |es|
  {
    if |es| > 0 {
      var init := es[..|es| - 1];
      var last := if es[|es| - 1].0 == k then (k, v) else es[|es| - 1];
      GetReplace(init, k, v, k');
      GetSnoc(Replace(init, k, v), last, k');
    }
  }

  lemma {:induction false} GetPut(es: Entries, k: string, v: Value, k': string)
    ensures Get(Put(es, k, v), k') == if k' == k then Some(v) else Get(es, k')
  {
    if k in Keys(es) {
      GetReplace(es, k, v, k');
    } else {
      GetSnoc(es, (k, v), k');
    }
  }

  lemma {:induction false} DistinctReplace(es: Entries, k: string, v: Value)
    requires Distinct(es)
    ensures Distinct(Replace(es, k, v))
    decreases |es|
  {
    if |es| > 0 {
      var init := es[..|es| - 1];
      var last := if es[|es| - 1].0 == k then (k, v) else es[|es| - 1];
      DistinctReplace(init, k, v);
      SnocTake(Replace(init, k, v), last);
    }
  }

  /** `d[k] = v` keeps the keys of a dict distinct. */
  lemma {:induction false} DistinctPut(es: Entries, k: string, v: Value)
    requires Distinct(es)
    ensures Distinct(Put(es, k, v))
  {
    if k in Keys(es) {
      DistinctReplace(es, k, v);
    } else {
      SnocTake(es, (k, v));
    }
  }

  lemma {:induction false} ReplaceAbsent(es: Entries, k: string, v: Value)
    requires k !in Keys(es)
    ensures Replace(es, k, v) == es
    decreases |es|
  {
    if |es| > 0 {
      ReplaceAbsent(es[..|es| - 1], k, v);
      assert es == es[..|es| - 1] + [es[|es| - 1]];
    }
  }

  lemma {:induction false} ReplaceSame(es: Entries, k: string, v: Value)
    requires Distinct(es) && Get(es, k) == Some(v)
    ensures Replace(es, k, v) == es
    decreases |es|
  {
    var init := es[..|es| - 1];
    if es[|es| - 1].0 == k {
      ReplaceAbsent(init, k, v);
    } else {
      ReplaceSame(init, k, v);
    }
    assert es == init + [es[|es| - 1]];
  }

  /** Writing into a dict the value a key already holds changes nothing. */
  lemma {:induction false} PutSame(es: Entries, k: string, v: Value)
    requires Distinct(es) && Get(es, k) == Some(v)
    ensures Put(es, k, v) == es
  {
    ReplaceSame(es, k, v);
  }

  /** In a dict, the entry at position i is what its key looks up. */
  lemma {:induction false} GetAt(es: Entries, i: nat)
    requires Distinct(es) && i < |es|
    ensures Get(es, es[i].0) == Some(es[i].1)
    decreases |es|
  {
    var init := es[..|es| - 1];
    if i < |es| - 1 {
      GetAt(init, i);
      assert init[i] == es[i];
      assert es[i].0 in Keys(init);
    }
  }

  lemma {:induction false} DistinctPrefix(es: Entries, n: nat)
    requires Distinct(es) && n <= |es|
    ensures Distinct(es[..n])
    decreases |es|
  {
    if n < |es| {
      DistinctPrefix(es[..|es| - 1], n);
      assert es[..|es| - 1][..n] == es[..n];
    } else {
      assert es[..n] == es;
    }
  }

  /** The key at position n of a dict is not among the keys before it. */
  lemma {:induction false} PrefixStep(es: Entries, n: nat)
    requires Distinct(es) && n < |es|
    ensures es[n].0 !in Keys(es[..n])
    ensures Keys(es[..n + 1]) == Keys(es[..n]) + {es[n].0}
    ensures forall k :: Get(es[..n + 1], k) == if k == es[n].0 then Some(es[n].1) else Get(es[..n], k)
  {
    DistinctPrefix(es, n + 1);
    var p := es[..n + 1];
    assert p[..n] == es[..n] && p[n] == es[n];
    forall k
      ensures Get(p, k) == if k == es[n].0 then Some(es[n].1) else Get(es[..n], k)
    {
    }
  }

  // ---------------------------------------------------------------------
  // Nested well-formedness

  /** Every mapping, at any depth, has distinct keys. */
  predicate Wf(v: Value)
    decreases v, 1
  {
    v.Leaf? || (Distinct(v.entries) && AllWf(v, |v.entries|))
  }

  /** The first n values of a mapping are well formed. */
  predicate AllWf(v: Value, n: nat)
    requires v.Dict? && n <= |v.entries|
    decreases v, 0, n
  {
    n == 0 || (AllWf(v, n - 1) && Wf(v.entries[n - 1].1))
  }

  lemma {:induction false} AllWfAt(v: Value, n: nat, i: nat)
    requires v.Dict? && i < n <= |v.entries| && AllWf(v, n)
    ensures Wf(v.entries[i].1)
    decreases n
  {
    if i < n - 1 {
      AllWfAt(v, n - 1, i);
    }
  }

  /** What a key of a well-formed mapping holds is well formed. */
  lemma {:induction false} WfGet(v: Value, k: string)
    requires Wf(v) && v.Dict?
    ensures Wf(GetOrEmpty(Get(v.entries, k)))
  {
    var es := v.entries;
    if k in Keys(es) {
      var i := IndexOf(es, k);
      GetAt(es, i);
      AllWfAt(v, |es|, i);
    } else {
      assert Wf(Dict([]));
    }
  }

  lemma {:induction false} IndexOf(es: Entries, k: string) returns (i: nat)
    requires k in Keys(es)
    ensures i < |es| && es[i].0 == k
    decreases |es|
  {
    if es[|es| - 1].0 == k {
      i := |es| - 1;
    } else {
      i := IndexOf(es[..|es| - 1], k);
    }
  }

  // ---------------------------------------------------------------------
  // The merge

  /** The result of `recursive_dict_update(d, u)`: `u.items()` raises
      AttributeError unless `u` is a mapping; its entries are then written
      into `d` in order. */
  function Merge(d: Value, u: Value): Result<Value>
    decreases u, 2
  {
    if u.Leaf? then Err(AttributeError) else MergeUpTo(d, u, |u.entries|)
  }

  /** `d` after the loop has written the first n entries of `u`; the first
      exception ends the loop. */
  function MergeUpTo(d: Value, u: Value, n: nat): Result<Value>
    requires u.Dict? && n <= |u.entries|
    decreases u, 1, n
  {
    if n == 0 then Ok(d)
    else match MergeUpTo(d, u, n - 1)
      case Err(e) => Err(e)
      case Ok(c) => Step(c, u, n - 1)
  }

  /** One pass of the loop on entry i of `u`: `d.get` raises AttributeError
      and `d[k] = ...` raises TypeError when `d` is not a mapping. */
  function Step(c: Value, u: Value, i: nat): Result<Value>
    requires u.Dict? && i < |u.entries|
    decreases u, 0
  {
    var k, v := u.entries[i].0, u.entries[i].1;
    if c.Leaf? then Err(if v.Dict? then AttributeError else TypeError)
    else if v.Leaf? then Ok(Dict(Put(c.entries, k, v)))
    else match Merge(GetOrEmpty(Get(c.entries, k)), v)
      case Err(e) => Err(e)
      case Ok(x) => Ok(Dict(Put(c.entries, k, x)))
  }

  /** What key k holds after the update, given what it held before (None
      when absent) and `u[k]`. */
  function Updated(old_: Option<Value>, v: Value): Result<Value> {
    if v.Dict? then Merge(GetOrEmpty(old_), v) else Ok(v)
  }

  /** Whether entry j of `u` makes the update fail: a mapping value whose
      merge into `d.get(k, {})` fails. */
  predicate FailsAt(d: Value, u: Value, j: nat)
    requires d.Dict? && u.Dict? && j < |u.entries|
  {
    Updated(Get(d.entries, u.entries[j].0), u.entries[j].1).Err?
  }

  /** The state after n entries: every key of those entries holds its
      updated value, every other key what it held in `d`. */
  lemma {:induction false} MergeUpToGet(d: Value, u: Value, n: nat, k: string)
    requires d.Dict? && u.Dict? && Distinct(u.entries) && n <= |u.entries|
    requires MergeUpTo(d, u, n).Ok?
    ensures MergeUpTo(d, u, n).value.Dict?
    ensures Keys(MergeUpTo(d, u, n).value.entries) == Keys(d.entries) + Keys(u.entries[..n])
    ensures k !in Keys(u.entries[..n]) ==> Get(MergeUpTo(d, u, n).value.entries, k) == Get(d.entries, k)
    ensures k in Keys(u.entries[..n]) ==>
      var x := Updated(Get(d.entries, k), Get(u.entries[..n], k).value);
      x.Ok? && Get(MergeUpTo(d, u, n).value.entries, k) == Some(x.value)
    decreases n
  {
    if n > 0 {
      var c := MergeUpTo(d, u, n - 1).value;
      var k0, v0 := u.entries[n - 1].0, u.entries[n - 1].1;
      MergeUpToGet(d, u, n - 1, k);
      MergeUpToGet(d, u, n - 1, k0);
      PrefixStep(u.entries, n - 1);
      var x := Updated(Get(c.entries, k0), v0);
      assert Step(c, u, n - 1) == Ok(Dict(Put(c.entries, k0, x.value)));
      GetPut(c.entries, k0, x.value, k);
    }
  }

  /** The update fails exactly when some entry of `u` fails, and then with
      the exception of the first one that does. */
  lemma {:induction false} MergeUpToFails(d: Value, u: Value, n: nat)
    requires d.Dict? && u.Dict? && Distinct(u.entries) && n <= |u.entries|
    ensures MergeUpTo(d, u, n).Err? <==> exists j :: 0 <= j < n && FailsAt(d, u, j)
    ensures MergeUpTo(d, u, n).Err? ==>
      exists j :: 0 <= j < n && FailsAt(d, u, j)
        && Updated(Get(d.entries, u.entries[j].0), u.entries[j].1).error == MergeUpTo(d, u, n).error
        && forall j' :: 0 <= j' < j ==> !FailsAt(d, u, j')
    decreases n
  {
    if n > 0 {
      MergeUpToFails(d, u, n - 1);
      if MergeUpTo(d, u, n - 1).Ok? {
        var k0 := u.entries[n - 1].0;
        MergeUpToGet(d, u, n - 1, k0);
        PrefixStep(u.entries, n - 1);
        if FailsAt(d, u, n - 1) {
          assert forall j' :: 0 <= j' < n - 1 ==> !FailsAt(d, u, j');
        }
      }
    }
  }

  /** Keys of `d` that `u` does not mention keep their values; a key whose
      `u` value is not a mapping gets that value; a key whose `u` value is a
      mapping gets that mapping merged into `d.get(k, {})`; the keys of the
      result are those of `d` and of `u`. */
  lemma {:induction false} MergeGet(d: Value, u: Value, k: string)
    requires d.Dict? && u.Dict? && Distinct(u.entries) && Merge(d, u).Ok?
    ensures Merge(d, u).value.Dict?
    ensures Keys(Merge(d, u).value.entries) == Keys(d.entries) + Keys(u.entries)
    ensures k !in Keys(u.entries) ==> Get(Merge(d, u).value.entries, k) == Get(d.entries, k)
    ensures Get(u.entries, k).Some? && Get(u.entries, k).value.Leaf? ==>
      Get(Merge(d, u).value.entries, k) == Get(u.entries, k)
    ensures Get(u.entries, k).Some? && Get(u.entries, k).value.Dict? ==>
      var x := Merge(GetOrEmpty(Get(d.entries, k)), Get(u.entries, k).value);
      x.Ok? && Get(Merge(d, u).value.entries, k) == Some(x.value)
  {
    assert u.entries[..|u.entries|] == u.entries;
    MergeUpToGet(d, u, |u.entries|, k);
  }

  /** The update fails exactly when merging some mapping value of `u` into
      `d.get(k, {})` fails, with the exception of the first such entry. */
  lemma {:induction false} MergeFails(d: Value, u: Value)
    requires d.Dict? && u.Dict? && Distinct(u.entries)
    ensures Merge(d, u).Err? <==> exists j :: 0 <= j < |u.entries| && FailsAt(d, u, j)
    ensures Merge(d, u).Err? ==>
      exists j :: 0 <= j < |u.entries| && FailsAt(d, u, j)
        && Updated(Get(d.entries, u.entries[j].0), u.entries[j].1).error == Merge(d, u).error
        && forall j' :: 0 <= j' < j ==> !FailsAt(d, u, j')
  {
    MergeUpToFails(d, u, |u.entries|);
  }

  /** Merging into a value that is not a mapping: an empty `u` leaves it as
      it is, otherwise the first entry fails, on `d.get` when its value is a
      mapping and on `d[k] = ...` when it is not. */
  lemma {:induction false} MergeOnLeaf(x: int, u: Value)
    requires u.Dict?
    ensures Merge(Leaf(x), u) ==
      if |u.entries| == 0 then Ok(Leaf(x))
      else Err(if u.entries[0].1.Dict? then AttributeError else TypeError)
  {
    if |u.entries| > 0 {
      LeafUpTo(x, u, |u.entries|);
    }
  }

  lemma {:induction false} LeafUpTo(x: int, u: Value, n: nat)
    requires u.Dict? && 0 < n <= |u.entries|
    ensures MergeUpTo(Leaf(x), u, n) == Err(if u.entries[0].1.Dict? then AttributeError else TypeError)
    decreases n
  {
    if n > 1 {
      LeafUpTo(x, u, n - 1);
    }
  }

  /** The update keeps the keys of a dict distinct. */
  lemma {:induction false} MergeUpToDistinct(d: Value, u: Value, n: nat)
    requires d.Dict? && Distinct(d.entries) && u.Dict? && n <= |u.entries| && MergeUpTo(d, u, n).Ok?
    ensures MergeUpTo(d, u, n).value.Dict? && Distinct(MergeUpTo(d, u, n).value.entries)
    decreases n
  {
    if n > 0 {
      MergeUpToDistinct(d, u, n - 1);
      var c := MergeUpTo(d, u, n - 1).value;
      var k0, v0 := u.entries[n - 1].0, u.entries[n - 1].1;
      if v0.Leaf? {
        DistinctPut(c.entries, k0, v0);
      } else {
        DistinctPut(c.entries, k0, Merge(GetOrEmpty(Get(c.entries, k0)), v0).value);
      }
    }
  }

  /** Applying the same update twice gives what applying it once gives. */
  lemma {:induction false} MergeIdempotent(d: Value, u: Value)
    requires Wf(d) && Wf(u) && Merge(d, u).Ok?
    ensures Merge(Merge(d, u).value, u) == Merge(d, u)
    decreases u, 1
  {
    if d.Leaf? {
      MergeOnLeaf(d.x, u);
    } else {
      assert u.entries[..|u.entries|] == u.entries;
      MergeUpToDistinct(d, u, |u.entries|);
      IdempotentUpTo(d, u, |u.entries|);
    }
  }

  lemma {:induction false} IdempotentUpTo(d: Value, u: Value, n: nat)
    requires Wf(d) && Wf(u) && d.Dict? && u.Dict? && n <= |u.entries| && Merge(d, u).Ok?
    requires Merge(d, u).value.Dict? && Distinct(Merge(d, u).value.entries)
    ensures MergeUpTo(Merge(d, u).value, u, n) == Merge(d, u)
    decreases u, 0, n
  {
    var r := Merge(d, u).value;
    if n > 0 {
      IdempotentUpTo(d, u, n - 1);
      var k0, v0 := u.entries[n - 1].0, u.entries[n - 1].1;
      GetAt(u.entries, n - 1);
      MergeGet(d, u, k0);
      if v0.Leaf? {
        PutSame(r.entries, k0, v0);
      } else {
        var old_ := GetOrEmpty(Get(d.entries, k0));
        WfGet(d, k0);
        AllWfAt(u, |u.entries|, n - 1);
        MergeIdempotent(old_, v0);
        PutSame(r.entries, k0, Merge(old_, v0).value);
      }
    }
  }

  /** `recursive_dict_update(d, u)`: the loop over `u.items()`, recursing on
      mapping values; returns the updated `d`. */
  method RecursiveDictUpdate(d: Value, u: Value) returns (r: Result<Value>)
    ensures r == Merge(d, u)
    decreases u
  {
    if u.Leaf? {
      return Err(AttributeError);
    }
    var cur := d;
    var i := 0;
    while i < |u.entries|
      invariant i <= |u.entries| && MergeUpTo(d, u, i) == Ok(cur)
    {
      var k, v := u.entries[i].0, u.entries[i].1;
      if cur.Leaf? {
        ErrorSticks(d, u, i + 1);
        return Err(if v.Dict? then AttributeError else TypeError);
      }
      if v.Dict? {
        var sub := RecursiveDictUpdate(GetOrEmpty(Get(cur.entries, k)), v);
        if sub.Err? {
          ErrorSticks(d, u, i + 1);
          return Err(sub.error);
        }
        cur := Dict(Put(cur.entries, k, sub.value));
      } else {
        cur := Dict(Put(cur.entries, k, v));
      }
      i := i + 1;
    }
    return Ok(cur);
  }

  /** Once an entry has failed, the rest of the loop is never run. */
  lemma {:induction false} ErrorSticks(d: Value, u: Value, n: nat)
    requires u.Dict? && n <= |u.entries| && MergeUpTo(d, u, n).Err?
    ensures MergeUpTo(d, u, |u.entries|) == MergeUpTo(d, u, n)
    decreases |u.entries| - n
  {
    if n < |u.entries| {
      ErrorSticks(d, u, n + 1);
    }
  }
}
