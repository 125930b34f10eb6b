/** A JavaScript `Record<string, string>` whose key order is observable:
    an ordered list of (key, value) entries. Assigning to a key that is
    present changes its value where it stands; assigning to a new key
    appends it; `delete` removes it. This is JavaScript's order for keys
    that are not array indices ("0", "2024"), which it would list first in
    ascending order; no key of these records is one. */
module Records {
  import opened Wrappers

  type Record = seq<(string, string)>

  /** `Object.keys(r)`. */
  function Keys(r: Record): (ks: seq<string>)
    ensures |ks| == |r|
    ensures forall i :: 0 <= i < |r| ==> ks[i] == r[i].0
  {
    seq(|r|, i requires 0 <= i < |r| => r[i].0)
  }

  /** No key appears twice, as in every JavaScript object. */
  predicate DistinctKeys(r: Record) {
    forall i, j :: 0 <= i < j < |r| ==> r[i].0 != r[j].0
  }

  /** The object literal `{ks[0]: vs[0], ks[1]: vs[1], ...}`. */
  function Zip(ks: seq<string>, vs: seq<string>): (r: Record)
    requires |ks| == |vs|
    ensures Keys(r) == ks
    ensures forall i :: 0 <= i < |r| ==> r[i] == (ks[i], vs[i])
  {
    seq(|ks|, i requires 0 <= i < |ks| => (ks[i], vs[i]))
  }

  /** No string appears twice in `ks`. */
  predicate NoDuplicates(ks: seq<string>) {
    forall i, j :: 0 <= i < j < |ks| ==> ks[i] != ks[j]
  }

  /** The position of key `k`, or -1 when it is absent. */
  function Find(r: Record, k: string): (i: int)
    ensures -1 <= i < |r|
    ensures i >= 0 ==> r[i].0 == k && forall j :: 0 <= j < i ==> r[j].0 != k
    ensures i < 0 ==> forall j :: 0 <= j < |r| ==> r[j].0 != k
  {
    if r == [] then -1
    else if r[0].0 == k then 0
    else var i := Find(r[1..], k); if i < 0 then -1 else i + 1
  }

  /** `k in r`. */
  predicate Has(r: Record, k: string) {
    Find(r, k) >= 0
  }

  /** `r[k]`, with `None` for `undefined`. */
  function Get(r: Record, k: string): (v: Option<string>)
    ensures v.Some? <==> Has(r, k)
  {
    var i := Find(r, k);
    if i < 0 then None else Some(r[i].1)
  }

  /** `r[k] || ""`: the value, with a missing key read as the empty string. */
  function GetOrEmpty(r: Record, k: string): string {
    Get(r, k).GetOr("")
  }

  /** `r[k] = v`. */
  function Put(r: Record, k: string, v: string): (r': Record)
    ensures Get(r', k) == Some(v)
    ensures forall k' :: k' != k ==> Get(r', k') == Get(r, k')
    ensures Has(r, k) ==> Keys(r') == Keys(r)
    ensures !Has(r, k) ==> Keys(r') == Keys(r) + [k]
    ensures DistinctKeys(r) ==> DistinctKeys(r')
  {
    var i := Find(r, k);
    if i < 0 then
      var r' := r + [(k, v)];
      FindAppended(r, k, v);
      assert forall k' :: k' != k ==> Find(r', k') == Find(r, k') by {
        forall k' | k' != k ensures Find(r', k') == Find(r, k') {
          FindPrefix(r, [(k, v)], k');
        }
      }
      r'
    else
      var r' := r[i := (k, v)];
      FindSameKeys(r, r', k);
      assert forall k' :: k' != k ==> Find(r', k') == Find(r, k') by {
        forall k' | k' != k ensures Find(r', k') == Find(r, k') {
          FindUpdate(r, i, v, k');
        }
      }
      r'
  }

  /** `delete r[k]`. */
  function Delete(r: Record, k: string): (r': Record)
    ensures !Has(r', k)
    ensures DistinctKeys(r) ==> forall k' :: k' != k ==> Get(r', k') == Get(r, k')
    ensures DistinctKeys(r) ==> DistinctKeys(r')
    ensures !Has(r, k) ==> r' == r
    ensures forall k' :: Has(r', k') ==> Has(r, k')
  {
    if r == [] then []
    else if r[0].0 == k then Delete(r[1..], k)
    else
      var rest := Delete(r[1..], k);
      ConsKeys(r, rest);
      if DistinctKeys(r) then
        ConsDistinct(r, rest);
        ConsGet(r, k, rest);
        [r[0]] + rest
      else
        [r[0]] + rest
  }

  /** Keeping the first entry in front of a record with fewer keys than
      the tail keeps the keys within those of the whole. */
  lemma ConsKeys(r: Record, rest: Record)
    requires r != [] && forall k' :: Has(rest, k') ==> Has(r[1..], k')
    ensures forall k' :: Has([r[0]] + rest, k') ==> Has(r, k')
  {
    var r' := [r[0]] + rest;
    assert r'[1..] == rest;
    forall k' | Has(r', k') ensures Has(r, k') {
      if r[0].0 != k' { assert Has(rest, k'); }
    }
  }

  /** The first entry of a record with distinct keys, put in front of a
      record with distinct keys drawn from the tail, keeps them distinct. */
  lemma ConsDistinct(r: Record, rest: Record)
    requires r != [] && DistinctKeys(r) && DistinctKeys(rest)
    requires forall k' :: Has(rest, k') ==> Has(r[1..], k')
    ensures DistinctKeys([r[0]] + rest)
  {
    var r' := [r[0]] + rest;
    assert !Has(r[1..], r[0].0);
    assert !Has(rest, r[0].0);
    forall i, j | 0 <= i < j < |r'| ensures r'[i].0 != r'[j].0 {
      if i == 0 {
        assert rest[j - 1].0 == r'[j].0;
      } else {
        assert r'[i] == rest[i - 1] && r'[j] == rest[j - 1];
      }
    }
  }

  /** Reading any other key than the deleted one through the kept first
      entry gives what the original gives. */
  lemma ConsGet(r: Record, k: string, rest: Record)
    requires r != [] && r[0].0 != k && DistinctKeys(r)
    requires forall k' :: k' != k ==> Get(rest, k') == Get(r[1..], k')
    ensures forall k' :: k' != k ==> Get([r[0]] + rest, k') == Get(r, k')
  {
    var r' := [r[0]] + rest;
    assert r'[1..] == rest;
    forall k' | k' != k ensures Get(r', k') == Get(r, k') {
      if r[0].0 != k' {
        assert Get(rest, k') == Get(r[1..], k');
        var a, b := Find(rest, k'), Find(r[1..], k');
        assert Find(r', k') == (if a < 0 then -1 else a + 1);
        assert Find(r, k') == (if b < 0 then -1 else b + 1);
      }
    }
  }

  lemma {:induction false} FindAppended(r: Record, k: string, v: string)
    requires !Has(r, k)
    ensures Find(r + [(k, v)], k) == |r|
  {
    if r != [] {
      assert (r + [(k, v)])[1..] == r[1..] + [(k, v)];
      FindAppended(r[1..], k, v);
    }
  }

  lemma {:induction false} FindSameKeys(r: Record, r': Record, k: string)
    requires |r| == |r'| && forall j :: 0 <= j < |r| ==> r[j].0 == r'[j].0
    ensures Find(r, k) == Find(r', k)
  {
    if r != [] {
      FindSameKeys(r[1..], r'[1..], k);
    }
  }

  lemma {:induction false} FindPrefix(r: Record, tail: Record, k: string)
    requires Find(r, k) >= 0 || forall j :: 0 <= j < |tail| ==> tail[j].0 != k
    ensures Find(r + tail, k) == Find(r, k)
  {
    if r != [] {
      assert (r + tail)[1..] == r[1..] + tail;
      if r[0].0 != k {
        FindPrefix(r[1..], tail, k);
      }
    }
  }

  lemma FindUpdate(r: Record, i: nat, v: string, k': string)
    requires i < |r| && r[i].0 != k'
    ensures Find(r[i := (r[i].0, v)], k') == Find(r, k')
  {
    var r' := r[i := (r[i].0, v)];
    assert forall j :: 0 <= j < |r| ==> r'[j].0 == r[j].0;
  }

  /** A key is present exactly when it is one of the listed keys. */
  lemma HasIffInKeys(r: Record, k: string)
    ensures Has(r, k) <==> k in Keys(r)
  {
    if k in Keys(r) {
      var j :| 0 <= j < |r| && Keys(r)[j] == k;
      assert r[j].0 == k;
    }
  }

  /** With distinct keys, the value stored at a position is the value of its key. */
  lemma GetAt(r: Record, i: nat)
    requires NoDuplicates(Keys(r)) && i < |r|
    ensures Get(r, r[i].0) == Some(r[i].1)
  {
    var j := Find(r, r[i].0);
    assert Keys(r)[j] == Keys(r)[i];
  }

  /** Assigning to a key that is not there appends it. */
  lemma PutAbsent(r: Record, k: string, v: string)
    requires k !in Keys(r)
    ensures Put(r, k, v) == r + [(k, v)]
  {
    HasIffInKeys(r, k);
  }

  /** With distinct keys, assigning to the key at position `i` replaces
      that entry where it stands. */
  lemma PutAt(r: Record, i: nat, v: string)
    requires NoDuplicates(Keys(r)) && i < |r|
    ensures Put(r, r[i].0, v) == r[i := (r[i].0, v)]
  {
    var j := Find(r, r[i].0);
    assert Keys(r)[j] == Keys(r)[i];
  }
}
