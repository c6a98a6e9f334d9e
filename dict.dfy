/**
 * A Python dictionary from strings to strings, kept as its entries in
 * insertion order.  Both parsers fill such a dictionary with `d[k] = v`, and
 * the planner reads back its first key, so the order is part of the model.
 */
module Dict {
  import opened Wrappers

  /** The entries of a dictionary, oldest key first. */
  type Entries = seq<(string, string)>

  /** `list(d.keys())`. */
  function Keys(d: Entries): (ks: seq<string>)
    ensures |ks| == |d|
    ensures forall i :: 0 <= i < |d| ==> ks[i] == d[i].0
  {
    if d == [] then [] else [d[0].0] + Keys(d[1..])
  }

  predicate Distinct(ks: seq<string>) {
    forall i, j :: 0 <= i < j < |ks| ==> ks[i] != ks[j]
  }

  /** `d.get(k)`: the value stored under `k`, if any. */
  function Get(d: Entries, k: string): (r: Option<string>)
    ensures r.None? <==> k !in Keys(d)
  {
    if d == [] then None
    else if d[0].0 == k then Some(d[0].1)
    else Get(d[1..], k)
  }

  /** `d[k] = v`: an existing key keeps its position and gets the new value; a new key is appended. */
  function Put(d: Entries, k: string, v: string): (r: Entries)
    ensures k in Keys(d) ==> Keys(r) == Keys(d)
    ensures k !in Keys(d) ==> Keys(r) == Keys(d) + [k]
    ensures Get(r, k) == Some(v)
    ensures forall k' :: k' != k ==> Get(r, k') == Get(d, k')
  {
    if d == [] then [(k, v)]
    else if d[0].0 == k then [(k, v)] + d[1..]
    else
      var rest := Put(d[1..], k, v);
      PutStep(d[0], d[1..], rest, k, v);
      [d[0]] + rest
  }

  /** Writing behind an entry with another key: the facts of `Put` carry over from the tail
      to the whole. */
  lemma PutStep(e: (string, string), t: Entries, r: Entries, k: string, v: string)
    requires e.0 != k
    requires k in Keys(t) ==> Keys(r) == Keys(t)
    requires k !in Keys(t) ==> Keys(r) == Keys(t) + [k]
    requires Get(r, k) == Some(v)
    requires forall k' :: k' != k ==> Get(r, k') == Get(t, k')
    ensures k in Keys([e] + t) ==> Keys([e] + r) == Keys([e] + t)
    ensures k !in Keys([e] + t) ==> Keys([e] + r) == Keys([e] + t) + [k]
    ensures Get([e] + r, k) == Some(v)
    ensures forall k' :: k' != k ==> Get([e] + r, k') == Get([e] + t, k')
  {
    PutStepKeys(e, t, r, k);
    GetCons(e, r, k);
    forall k' | k' != k ensures Get([e] + r, k') == Get([e] + t, k') {
      GetCons(e, r, k');
      GetCons(e, t, k');
    }
  }

  lemma PutStepKeys(e: (string, string), t: Entries, r: Entries, k: string)
    requires e.0 != k
    requires k in Keys(t) ==> Keys(r) == Keys(t)
    requires k !in Keys(t) ==> Keys(r) == Keys(t) + [k]
    ensures k in Keys([e] + t) ==> Keys([e] + r) == Keys([e] + t)
    ensures k !in Keys([e] + t) ==> Keys([e] + r) == Keys([e] + t) + [k]
  {
    KeysCons(e, r);
    KeysCons(e, t);
    ConsKey(e.0, Keys(t), Keys(r), k);
  }

  /** Putting a different key in front keeps "unchanged, or `k` appended". */
  lemma ConsKey(x: string, kt: seq<string>, kr: seq<string>, k: string)
    requires x != k
    requires k in kt ==> kr == kt
    requires k !in kt ==> kr == kt + [k]
    ensures k in [x] + kt ==> [x] + kr == [x] + kt
    ensures k !in [x] + kt ==> [x] + kr == [x] + kt + [k]
  {
    if k !in kt {
      assert [x] + (kt + [k]) == [x] + kt + [k];
    }
  }

  lemma KeysCons(e: (string, string), t: Entries)
    ensures Keys([e] + t) == [e.0] + Keys(t)
  {
    assert ([e] + t)[1..] == t;
  }

  lemma GetCons(e: (string, string), t: Entries, k: string)
    ensures Get([e] + t, k) == if e.0 == k then Some(e.1) else Get(t, k)
  {
    assert ([e] + t)[1..] == t;
  }

  /** A single write keeps the existing keys at the front. */
  lemma PutKeepsOrder(d: Entries, k: string, v: string)
    ensures |Put(d, k, v)| >= |d| && Keys(Put(d, k, v))[..|d|] == Keys(d)
  {
    if k !in Keys(d) {
      assert (Keys(d) + [k])[..|d|] == Keys(d);
    }
  }

  /** The writes `ws`, applied one after the other (a `for` loop of `d[k] = v`). */
  function PutAll(d: Entries, ws: Entries): (r: Entries)
    ensures |r| >= |d| && Keys(r)[..|d|] == Keys(d)
    decreases |ws|
  {
    if ws == [] then d
    else
      var d' := Put(d, ws[0].0, ws[0].1);
      PutKeepsOrder(d, ws[0].0, ws[0].1);
      PrefixOfPrefix(Keys(d), Keys(d'), Keys(PutAll(d', ws[1..])));
      PutAll(d', ws[1..])
  }

  /** Concatenation is associative. */
  lemma AppendAssoc<T>(a: seq<T>, b: seq<T>, c: seq<T>)
    ensures (a + b) + c == a + (b + c)
  {
  }

  /** Applying one more write after the others. */
  lemma {:induction false} PutAllSnoc(d: Entries, ws: Entries, w: (string, string))
    ensures PutAll(d, ws + [w]) == Put(PutAll(d, ws), w.0, w.1)
    decreases |ws|
  {
    if ws == [] {
      assert ws + [w] == [w];
    } else {
      assert (ws + [w])[1..] == ws[1..] + [w];
      PutAllSnoc(Put(d, ws[0].0, ws[0].1), ws[1..], w);
    }
  }

  /** The position of the last write to `k` in `ws`, if there is one. */
  function LastWrite(ws: Entries, k: string): (r: Option<nat>)
    ensures r.None? <==> k !in Keys(ws)
    ensures r.Some? ==> r.value < |ws| && ws[r.value].0 == k
    ensures r.Some? ==> forall j :: r.value < j < |ws| ==> ws[j].0 != k
  {
    if ws == [] then None
    else
      match LastWrite(ws[1..], k)
      case Some(j) => Some(j + 1)
      case None => if ws[0].0 == k then Some(0) else None
  }

  /** Last write wins: after the writes, `k` holds its last written value, or its old value if never written. */
  lemma {:induction false} PutAllGet(d: Entries, ws: Entries, k: string)
    ensures Get(PutAll(d, ws), k) == match LastWrite(ws, k) case Some(i) => Some(ws[i].1) case None => Get(d, k)
    decreases |ws|
  {
    if ws != [] {
      PutAllGet(Put(d, ws[0].0, ws[0].1), ws[1..], k);
    }
  }

  /** The last write to `k` is the one at `i` when no later write touches `k`. */
  lemma {:induction false} LastWriteAt(ws: Entries, k: string, i: nat)
    requires i < |ws| && ws[i].0 == k
    requires forall j :: i < j < |ws| ==> ws[j].0 != k
    ensures LastWrite(ws, k) == Some(i)
  {
    if i == 0 {
      assert forall j :: 0 <= j < |ws[1..]| ==> Keys(ws[1..])[j] != k;
    } else {
      LastWriteAt(ws[1..], k, i - 1);
    }
  }

  /** A key written at `i` and never again holds the value written at `i`. */
  lemma LastWriteWins(d: Entries, ws: Entries, k: string, i: nat)
    requires i < |ws| && ws[i].0 == k
    requires forall j :: i < j < |ws| ==> ws[j].0 != k
    ensures Get(PutAll(d, ws), k) == Some(ws[i].1)
  {
    PutAllGet(d, ws, k);
    LastWriteAt(ws, k, i);
  }

  /** A key the writes never touch keeps its old value. */
  lemma NeverWritten(d: Entries, ws: Entries, k: string)
    requires forall i :: 0 <= i < |ws| ==> ws[i].0 != k
    ensures Get(PutAll(d, ws), k) == Get(d, k)
  {
    PutAllGet(d, ws, k);
  }

  /** A prefix of a prefix is a prefix. */
  lemma PrefixOfPrefix<T>(a: seq<T>, b: seq<T>, c: seq<T>)
    requires |a| <= |b| <= |c| && c[..|b|] == b && b[..|a|] == a
    ensures c[..|a|] == a
  {
    assert c[..|b|][..|a|] == c[..|a|];
  }

  /** A key is present after the writes exactly when it was present before or was written. */
  lemma {:induction false} PutAllKeys(d: Entries, ws: Entries, k: string)
    ensures k in Keys(PutAll(d, ws)) <==> k in Keys(d) || k in Keys(ws)
    decreases |ws|
  {
    if ws != [] {
      var d' := Put(d, ws[0].0, ws[0].1);
      PutAllKeys(d', ws[1..], k);
      assert Keys(ws) == [ws[0].0] + Keys(ws[1..]);
    }
  }

  /** Writing only keys that are already present leaves the key list as it was. */
  lemma {:induction false} PutAllSameKeys(d: Entries, ws: Entries)
    requires forall i :: 0 <= i < |ws| ==> ws[i].0 in Keys(d)
    ensures Keys(PutAll(d, ws)) == Keys(d)
    decreases |ws|
  {
    if ws != [] {
      var d' := Put(d, ws[0].0, ws[0].1);
      PutAllSameKeys(d', ws[1..]);
    }
  }

  /** `Put` never introduces a second copy of a key. */
  lemma PutDistinct(d: Entries, k: string, v: string)
    requires Distinct(Keys(d))
    ensures Distinct(Keys(Put(d, k, v)))
  {
  }

  /** A dictionary never holds a key twice. */
  lemma {:induction false} PutAllDistinct(d: Entries, ws: Entries)
    requires Distinct(Keys(d))
    ensures Distinct(Keys(PutAll(d, ws)))
    decreases |ws|
  {
    if ws != [] {
      PutDistinct(d, ws[0].0, ws[0].1);
      PutAllDistinct(Put(d, ws[0].0, ws[0].1), ws[1..]);
    }
  }

  /** Filling an empty dictionary: the first key is the first key written. */
  lemma FirstKeyFirstWritten(ws: Entries)
    requires |ws| > 0
    ensures |PutAll([], ws)| > 0 && Keys(PutAll([], ws))[0] == ws[0].0
  {
    var d := Put([], ws[0].0, ws[0].1);
    assert PutAll([], ws) == PutAll(d, ws[1..]);
    assert Keys(d) == [ws[0].0];
  }
}
