/**
 * A plain JavaScript object used as a dictionary: string keys with values,
 * enumerated by `Object.entries` in insertion order. Assigning to a key that
 * is present replaces its value in place; assigning to a new key appends it;
 * `delete` removes it.
 */
module JsObject {
  import opened Common

  type Obj<V> = seq<(string, V)>

  predicate Distinct(ks: seq<string>)
  {
    forall i, j :: 0 <= i < j < |ks| ==> ks[i] != ks[j]
  }

  function Keys<V>(o: Obj<V>): (ks: seq<string>)
    ensures |ks| == |o| && forall i :: 0 <= i < |o| ==> ks[i] == o[i].0
  {
    if |o| == 0 then [] else [o[0].0] + Keys(o[1..])
  }

  /** Keys are distinct, as they are in any object. */
  predicate WellFormed<V>(o: Obj<V>)
  {
    Distinct(Keys(o))
  }

  /** `o[k]`: the value stored under `k`, `None` for `undefined`. */
  function Get<V>(o: Obj<V>, k: string): (r: Option<V>)
    ensures r.Some? <==> k in Keys(o)
  {
    if |o| == 0 then None
    else if o[0].0 == k then Some(o[0].1)
    else Get(o[1..], k)
  }

  lemma DistinctCons(x: string, ks: seq<string>)
    ensures Distinct([x] + ks) <==> x !in ks && Distinct(ks)
  {
    var s := [x] + ks;
    if Distinct(s) {
      forall i, j | 0 <= i < j < |ks| ensures ks[i] != ks[j] {
        assert s[i + 1] == ks[i] && s[j + 1] == ks[j];
      }
      forall j | 0 <= j < |ks| ensures ks[j] != x {
        assert s[0] != s[j + 1];
      }
    }
  }

  /** Two objects listing the same keys in the same order. */
  lemma SameKeys<U, V>(a: Obj<U>, b: Obj<V>)
    requires |a| == |b| && forall i :: 0 <= i < |a| ==> a[i].0 == b[i].0
    ensures Keys(a) == Keys(b)
  {
    assert forall i :: 0 <= i < |a| ==> Keys(a)[i] == Keys(b)[i];
  }

  /** `o[k] = v`. */
  function Put<V>(o: Obj<V>, k: string, v: V): (r: Obj<V>)
    ensures Keys(r) == if k in Keys(o) then Keys(o) else Keys(o) + [k]
    ensures forall k' :: k' in Keys(r) <==> k' in Keys(o) || k' == k
  {
    if |o| == 0 then [(k, v)]
    else if o[0].0 == k then
      var r := [(k, v)] + o[1..];
      assert r[1..] == o[1..];
      assert Keys(r) == [k] + Keys(o[1..]) == Keys(o);
      r
    else
      var r := [o[0]] + Put(o[1..], k, v);
      assert Keys(r) == [o[0].0] + Keys(r[1..]);
      assert Keys(o) == [o[0].0] + Keys(o[1..]);
      r
  }

  /** After `o[k] = v`, reading `k` gives `v`, reading any other key gives what it gave before, and every other entry keeps its place. */
  lemma {:induction false} PutGet<V>(o: Obj<V>, k: string, v: V)
    ensures Get(Put(o, k, v), k) == Some(v)
    ensures forall k' :: k' != k ==> Get(Put(o, k, v), k') == Get(o, k')
    ensures forall i :: 0 <= i < |o| && o[i].0 != k ==> Put(o, k, v)[i] == o[i]
  {
    if |o| > 0 && o[0].0 != k {
      PutGet(o[1..], k, v);
      var r := Put(o, k, v);
      assert r == [o[0]] + Put(o[1..], k, v);
      forall i | 0 <= i < |o| && o[i].0 != k ensures r[i] == o[i] {
        if i > 0 {
          assert o[1..][i - 1] == o[i];
        }
      }
    }
  }

  /** `delete o[k]`. */
  function Remove<V>(o: Obj<V>, k: string): (r: Obj<V>)
    ensures Get(r, k) == None
    ensures forall k' :: k' != k ==> Get(r, k') == Get(o, k')
    ensures forall k' :: k' in Keys(r) <==> k' in Keys(o) && k' != k
    ensures k !in Keys(o) ==> r == o
  {
    if |o| == 0 then []
    else
      var rest := Remove(o[1..], k);
      assert Keys(o) == [o[0].0] + Keys(o[1..]);
      if o[0].0 == k then rest
      else
        var r := [o[0]] + rest;
        assert Keys(r) == [o[0].0] + Keys(rest);
        r
  }

  /** Assignment and deletion keep an object's keys distinct. */
  lemma {:induction false} PutRemoveWellFormed<V>(o: Obj<V>, k: string, v: V)
    requires WellFormed(o)
    ensures WellFormed(Put(o, k, v))
    ensures WellFormed(Remove(o, k))
  {
    var ks := Keys(o);
    if k !in ks {
      forall i, j | 0 <= i < j < |ks + [k]| ensures (ks + [k])[i] != (ks + [k])[j] {
        if j == |ks| {
          assert (ks + [k])[i] == ks[i];
        } else {
          assert (ks + [k])[i] == ks[i] && (ks + [k])[j] == ks[j];
        }
      }
    }
    if |o| > 0 {
      DistinctCons(o[0].0, Keys(o[1..]));
      assert Keys(o) == [o[0].0] + Keys(o[1..]);
      PutRemoveWellFormed(o[1..], k, v);
      if o[0].0 != k {
        var r := Remove(o, k);
        assert r == [o[0]] + Remove(o[1..], k);
        assert Keys(r) == [o[0].0] + Keys(Remove(o[1..], k));
        DistinctCons(o[0].0, Keys(Remove(o[1..], k)));
      }
    }
  }

  /** Adding a key the object lacks and deleting it again gives back the same object, order included. */
  lemma {:induction false} RemoveAfterPutNew<V>(o: Obj<V>, k: string, v: V)
    requires k !in Keys(o)
    ensures Remove(Put(o, k, v), k) == o
  {
    if |o| > 0 {
      assert Keys(o) == [o[0].0] + Keys(o[1..]);
      RemoveAfterPutNew(o[1..], k, v);
      assert Put(o, k, v) == [o[0]] + Put(o[1..], k, v);
    }
  }

  /** Assigning to a key the object lacks appends the entry at the end. */
  lemma {:induction false} PutNew<V>(o: Obj<V>, k: string, v: V)
    requires k !in Keys(o)
    ensures Put(o, k, v) == o + [(k, v)]
  {
    if |o| > 0 {
      var rest := o[1..];
      assert Keys(o) == [o[0].0] + Keys(rest);
      PutNew(rest, k, v);
      assert Put(o, k, v) == [o[0]] + Put(rest, k, v);
      assert o == [o[0]] + rest;
    }
  }
}
