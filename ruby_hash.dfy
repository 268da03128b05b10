/** Ruby's insertion-ordered Hash with string (symbol) keys, as a sequence of
    key/value pairs. Iteration order is sequence order. */
module RubyHash {
  import opened Wrappers

  type Hash<V> = seq<(string, V)>

  /** No key occurs twice: what every Ruby Hash guarantees. */
  predicate Distinct<V>(h: Hash<V>) {
    forall i, j :: 0 <= i < j < |h| ==> h[i].0 != h[j].0
  }

  /** `h.keys`, in iteration order. */
  function Keys<V>(h: Hash<V>): (ks: seq<string>)
    ensures |ks| == |h|
    ensures forall i :: 0 <= i < |h| ==> ks[i] == h[i].0
  {
    if h == [] then [] else [h[0].0] + Keys(h[1..])
  }

  /** `h[k]`: the value bound to `k`, or nil (None) when `k` is not a key. */
  function Get<V>(h: Hash<V>, k: string): (r: Option<V>)
    ensures r.None? <==> k !in Keys(h)
    ensures r.Some? ==> (k, r.value) in h
    ensures Distinct(h) ==> forall i :: 0 <= i < |h| && h[i].0 == k ==> r == Some(h[i].1)
  {
    if h == [] then None
    else if h[0].0 == k then Some(h[0].1)
    else Get(h[1..], k)
  }

  /** `h[k] = v`: a key already present keeps its position and takes the new
      value; a new key is appended. */
  function Put<V>(h: Hash<V>, k: string, v: V): (r: Hash<V>)
    ensures |r| == |h| || |r| == |h| + 1
  {
    if h == [] then [(k, v)]
    else if h[0].0 == k then [(k, v)] + h[1..]
    else [h[0]] + Put(h[1..], k, v)
  }

  /** The keys after `h[k] = v`: unchanged, in place, when `k` was present;
      otherwise `k` is added. */
  lemma {:induction false} PutKeys<V>(h: Hash<V>, k: string, v: V)
    ensures k in Keys(h) ==> |Put(h, k, v)| == |h| && Keys(Put(h, k, v)) == Keys(h)
    ensures forall x :: x in Keys(Put(h, k, v)) <==> x in Keys(h) || x == k
  {
    if h != [] {
      assert Keys(h) == [h[0].0] + Keys(h[1..]);
      if h[0].0 != k {
        PutKeys(h[1..], k, v);
        var r := Put(h, k, v);
        assert r[1..] == Put(h[1..], k, v);
        assert Keys(r) == [h[0].0] + Keys(r[1..]);
      } else {
        var r := Put(h, k, v);
        assert r[1..] == h[1..];
        assert Keys(r) == [k] + Keys(h[1..]);
      }
    }
  }

  /** A new key is appended at the end. */
  lemma {:induction false} PutNew<V>(h: Hash<V>, k: string, v: V)
    requires k !in Keys(h)
    ensures Put(h, k, v) == h + [(k, v)]
  {
    if h != [] {
      assert Keys(h) == [h[0].0] + Keys(h[1..]);
      PutNew(h[1..], k, v);
      assert [h[0]] + (h[1..] + [(k, v)]) == h + [(k, v)];
    }
  }

  /** After `h[k] = v`, `k` reads `v` and every other key reads as before. */
  lemma {:induction false} PutGet<V>(h: Hash<V>, k: string, v: V)
    ensures Get(Put(h, k, v), k) == Some(v)
    ensures forall x :: x != k ==> Get(Put(h, k, v), x) == Get(h, x)
  {
    var r := Put(h, k, v);
    if h == [] {
    } else if h[0].0 == k {
      assert r[1..] == h[1..];
    } else {
      PutGet(h[1..], k, v);
      assert r[1..] == Put(h[1..], k, v);
    }
  }

  /** `h[k] = v` keeps a Hash's keys distinct. */
  lemma PutDistinct<V>(h: Hash<V>, k: string, v: V)
    requires Distinct(h)
    ensures Distinct(Put(h, k, v))
  {
    PutKeys(h, k, v);
    var r := Put(h, k, v);
    if k in Keys(h) {
      forall i, j | 0 <= i < j < |r| ensures r[i].0 != r[j].0 {
        assert Keys(r)[i] == Keys(h)[i] && Keys(r)[j] == Keys(h)[j];
      }
    } else {
      PutNew(h, k, v);
      forall i, j | 0 <= i < j < |r| ensures r[i].0 != r[j].0 {
        if j == |h| {
          assert Keys(h)[i] == h[i].0;
        }
      }
    }
  }

  /** Every pair of `h[k] = v` is a pair of `h` or the new binding. */
  lemma {:induction false} PutEntries<V>(h: Hash<V>, k: string, v: V)
    ensures forall i :: 0 <= i < |Put(h, k, v)| ==> Put(h, k, v)[i] in h || Put(h, k, v)[i] == (k, v)
  {
    if h != [] && h[0].0 != k {
      PutEntries(h[1..], k, v);
      var r := Put(h, k, v);
      forall i | 0 <= i < |r| ensures r[i] in h || r[i] == (k, v) {
        if i > 0 {
          assert r[i] == Put(h[1..], k, v)[i - 1];
        }
      }
    }
  }

  /** The Hash a JSON object's members become, in textual order: a repeated
      key keeps its first position and its last value. */
  function FromPairs<V>(members: seq<(string, V)>): (h: Hash<V>)
    ensures Distinct(h)
  {
    if members == [] then []
    else
      var init := members[..|members| - 1];
      var last := members[|members| - 1];
      PutDistinct(FromPairs(init), last.0, last.1);
      Put(FromPairs(init), last.0, last.1)
  }

  /** Members without repeated keys become the Hash of exactly those pairs. */
  lemma {:induction false} FromPairsOfDistinct<V>(members: seq<(string, V)>)
    requires Distinct(members)
    ensures FromPairs(members) == members
    decreases |members|
  {
    if members != [] {
      var init := members[..|members| - 1];
      DistinctPrefix(members, |members| - 1);
      FromPairsOfDistinct(init);
      LastKeyIsNew(members);
      FromPairsUnfold(members);
      PutNew(init, members[|members| - 1].0, members[|members| - 1].1);
    }
  }

  lemma DistinctPrefix<V>(h: Hash<V>, n: nat)
    requires Distinct(h) && n <= |h|
    ensures Distinct(h[..n])
  {
  }

  lemma FromPairsUnfold<V>(members: seq<(string, V)>)
    requires members != []
    ensures FromPairs(members) ==
      Put(FromPairs(members[..|members| - 1]), members[|members| - 1].0, members[|members| - 1].1)
  {
  }

  lemma LastKeyIsNew<V>(members: seq<(string, V)>)
    requires Distinct(members) && members != []
    ensures members[|members| - 1].0 !in Keys(members[..|members| - 1])
  {
    var init := members[..|members| - 1];
    forall i | 0 <= i < |init| ensures Keys(init)[i] != members[|members| - 1].0 {
      assert members[i].0 != members[|members| - 1].0;
    }
  }

  lemma KeysSnoc<V>(h: Hash<V>, e: (string, V))
    ensures Keys(h + [e]) == Keys(h) + [e.0]
  {
  }

  /** Looking a key up after appending one pair: earlier pairs win. */
  lemma {:induction false} GetSnoc<V>(h: Hash<V>, e: (string, V), k: string)
    ensures Get(h + [e], k) == if k in Keys(h) then Get(h, k) else if k == e.0 then Some(e.1) else None
    decreases |h|
  {
    if h == [] {
      assert h + [e] == [e];
    } else {
      assert (h + [e])[1..] == h[1..] + [e];
      assert Keys(h) == [h[0].0] + Keys(h[1..]);
      if h[0].0 != k {
        GetSnoc(h[1..], e, k);
      }
    }
  }

  /** `GetSnoc` stated on a non-empty Hash and its last pair. */
  lemma GetLast<V>(h: Hash<V>, k: string)
    requires h != []
    ensures var init := h[..|h| - 1];
      Get(h, k) == if k in Keys(init) then Get(init, k) else if k == h[|h| - 1].0 then Some(h[|h| - 1].1) else None
  {
    assert h == h[..|h| - 1] + [h[|h| - 1]];
    GetSnoc(h[..|h| - 1], h[|h| - 1], k);
  }
}
