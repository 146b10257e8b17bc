/** Parameter collection for the OAuth 1.0 signature base string (section
    3.4.1.3 of RFC 5849) as OauthHelper does it: percent-encode every
    key and value, sort the pairs by key, join them as `key=value` with `&`. */
module OauthParams {
  import opened Text

  /** The percent encoder (PercentEncoder.encode), left abstract. */
  type Encoder = string -> string

  /** One entry of a JavaScript parameter object, in key iteration order. */
  datatype Param = Param(key: string, value: string)

  function EncodeParam(enc: Encoder, p: Param): Param {
    Param(enc(p.key), enc(p.value))
  }

  /** Every parameter encoded, in the same order. */
  function EncodeAll(enc: Encoder, ps: seq<Param>): (r: seq<Param>)
    ensures |r| == |ps|
    ensures forall i :: 0 <= i < |ps| ==> r[i] == EncodeParam(enc, ps[i])
  {
    if ps == [] then [] else [EncodeParam(enc, ps[0])] + EncodeAll(enc, ps[1..])
  }

  lemma EncodeAllAppend(enc: Encoder, a: seq<Param>, b: seq<Param>)
    ensures EncodeAll(enc, a + b) == EncodeAll(enc, a) + EncodeAll(enc, b)
  {
  }

  /** Encoding a rearrangement of the parameters rearranges the encoded ones. */
  lemma {:induction false} EncodeAllPermutation(enc: Encoder, x: seq<Param>, y: seq<Param>)
    requires multiset(x) == multiset(y)
    ensures multiset(EncodeAll(enc, x)) == multiset(EncodeAll(enc, y))
    decreases |x|
  {
    if x == [] {
      assert |multiset(y)| == 0;
    } else {
      assert x[0] in multiset(y);
      var j :| 0 <= j < |y| && y[j] == x[0];
      var rest := y[..j] + y[j + 1..];
      assert multiset(x[1..]) == multiset(rest) by {
        MultisetWithout(y, j);
        MultisetHead(x);
        MultisetCancel(multiset(x[1..]), multiset(rest), x[0]);
      }
      EncodeAllPermutation(enc, x[1..], rest);
      EncodeAllMatched(enc, x, y, j);
    }
  }

  /** Encoding commutes with taking out one matched entry on each side. */
  lemma EncodeAllMatched(enc: Encoder, x: seq<Param>, y: seq<Param>, j: nat)
    requires x != [] && j < |y| && y[j] == x[0]
    requires multiset(EncodeAll(enc, x[1..])) == multiset(EncodeAll(enc, y[..j] + y[j + 1..]))
    ensures multiset(EncodeAll(enc, x)) == multiset(EncodeAll(enc, y))
  {
    EncodeAllWithout(enc, y, j);
    var e := EncodeAll(enc, x);
    assert e[1..] == EncodeAll(enc, x[1..]);
    MultisetHead(e);
  }

  lemma {:induction false} EncodeAllWithout(enc: Encoder, s: seq<Param>, j: nat)
    requires j < |s|
    ensures multiset(EncodeAll(enc, s))
         == multiset(EncodeAll(enc, s[..j] + s[j + 1..])) + multiset{EncodeParam(enc, s[j])}
  {
    var e := EncodeAll(enc, s);
    var t := s[..j] + s[j + 1..];
    var et := EncodeAll(enc, t);
    forall k | 0 <= k < |t|
      ensures et[k] == (e[..j] + e[j + 1..])[k]
    {
      if k < j {
        assert t[k] == s[k];
      } else {
        assert t[k] == s[k + 1];
      }
    }
    assert et == e[..j] + e[j + 1..];
    MultisetWithout(e, j);
  }

  lemma {:induction false} MultisetWithout<T>(s: seq<T>, j: nat)
    requires j < |s|
    ensures multiset(s) == multiset(s[..j] + s[j + 1..]) + multiset{s[j]}
  {
    assert s == s[..j] + [s[j]] + s[j + 1..];
  }

  lemma MultisetHead<T>(s: seq<T>)
    requires s != []
    ensures multiset(s) == multiset(s[1..]) + multiset{s[0]}
  {
    assert s == [s[0]] + s[1..];
  }

  lemma MultisetCancel<T>(a: multiset<T>, b: multiset<T>, x: T)
    requires a + multiset{x} == b + multiset{x}
    ensures a == b
  {
    assert forall z :: (a + multiset{x})[z] == a[z] + multiset{x}[z];
    assert forall z :: (b + multiset{x})[z] == b[z] + multiset{x}[z];
  }

  /** _percentEncodeParams: one encoded entry per key of `params`, then one per
      key of `queryParams`, each in iteration order. */
  method PercentEncodeParams(enc: Encoder, params: seq<Param>, queryParams: seq<Param>)
    returns (encoded: seq<Param>)
    ensures |encoded| == |params| + |queryParams|
    ensures forall i :: 0 <= i < |params| ==> encoded[i] == EncodeParam(enc, params[i])
    ensures forall j :: 0 <= j < |queryParams| ==>
              encoded[|params| + j] == EncodeParam(enc, queryParams[j])
  {
    encoded := [];
    for i := 0 to |params|
      invariant |encoded| == i
      invariant forall k :: 0 <= k < i ==> encoded[k] == EncodeParam(enc, params[k])
    {
      encoded := encoded + [Param(enc(params[i].key), enc(params[i].value))];
    }
    for j := 0 to |queryParams|
      invariant |encoded| == |params| + j
      invariant forall k :: 0 <= k < |params| ==> encoded[k] == EncodeParam(enc, params[k])
      invariant forall k :: 0 <= k < j ==> encoded[|params| + k] == EncodeParam(enc, queryParams[k])
    {
      encoded := encoded + [Param(enc(queryParams[j].key), enc(queryParams[j].value))];
    }
  }

  /** The comparator handed to `Array.prototype.sort`: 1 when the first key is
      after the second, -1 when before, 0 otherwise; values play no part. */
  function Compare(first: Param, second: Param): (r: int)
    ensures r == 1 <==> Less(second.key, first.key)
    ensures r == -1 <==> Less(first.key, second.key)
    ensures r == 0 <==> first.key == second.key
  {
    LessTrichotomy(first.key, second.key);
    LessIrreflexive(first.key);
    if Less(second.key, first.key) then
      LessAsymmetric(second.key, first.key);
      1
    else if Less(first.key, second.key) then -1
    else 0
  }

  /** The comparator is antisymmetric and reports 0 exactly for equal keys. */
  lemma CompareProperties(first: Param, second: Param)
    ensures Compare(first, second) == -Compare(second, first)
    ensures Compare(first, second) == 0 <==> first.key == second.key
  {
    if Less(second.key, first.key) {
      LessAsymmetric(second.key, first.key);
    } else if Less(first.key, second.key) {
      LessAsymmetric(first.key, second.key);
    } else if first.key != second.key {
      LessTotal(first.key, second.key);
    } else {
      LessIrreflexive(first.key);
    }
  }

  /** Ordered non-decreasingly by key, every pair of positions considered. */
  predicate SortedByKey(s: seq<Param>) {
    forall i, j :: 0 <= i < j < |s| ==> NotAfter(s[i].key, s[j].key)
  }

  /** `s` is what a sort by key may leave of `e`: the same entries, ordered. */
  ghost predicate Arrangement(s: seq<Param>, e: seq<Param>) {
    SortedByKey(s) && multiset(s) == multiset(e)
  }

  /** _sortEncodedParams: sorts the array in place with the key comparator
      (an insertion sort that swaps neighbours while the comparator says 1). */
  method SortEncodedParams(a: array<Param>)
    modifies a
    ensures Arrangement(a[..], old(a[..]))
  {
    if a.Length == 0 {
      return;
    }
    var i := 1;
    while i < a.Length
      invariant 1 <= i <= a.Length
      invariant forall p, q :: 0 <= p < q < i ==> NotAfter(a[p].key, a[q].key)
      invariant multiset(a[..]) == multiset(old(a[..]))
    {
      InsertAt(a, i);
      i := i + 1;
    }
  }

  /** Moves `a[i]` left past every entry whose key is after its own, so that
      the first `i + 1` entries are sorted when the first `i` were. */
  method InsertAt(a: array<Param>, i: nat)
    requires 1 <= i < a.Length
    requires forall p, q :: 0 <= p < q < i ==> NotAfter(a[p].key, a[q].key)
    modifies a
    ensures forall p, q :: 0 <= p < q <= i ==> NotAfter(a[p].key, a[q].key)
    ensures multiset(a[..]) == multiset(old(a[..]))
  {
    var j := i;
    while j > 0 && Compare(a[j - 1], a[j]) > 0
      invariant 0 <= j <= i
      invariant forall p, q :: 0 <= p < q <= i && p != j && q != j ==> NotAfter(a[p].key, a[q].key)
      invariant forall q :: j < q <= i ==> Less(a[j].key, a[q].key)
      invariant multiset(a[..]) == multiset(old(a[..]))
    {
      Swap(a, j - 1, j);
      j := j - 1;
    }
    forall p, q | 0 <= p < q <= i
      ensures NotAfter(a[p].key, a[q].key)
    {
      if q == j {
        if p < j - 1 {
          NotAfterTransitive(a[p].key, a[j - 1].key, a[j].key);
        }
      } else if p == j {
        LessAsymmetric(a[j].key, a[q].key);
      }
    }
  }

  method Swap(a: array<Param>, x: nat, y: nat)
    requires x < a.Length && y < a.Length
    modifies a
    ensures a[..] == old(a[..])[x := old(a[y])][y := old(a[x])]
    ensures multiset(a[..]) == multiset(old(a[..]))
  {
    a[x], a[y] := a[y], a[x];
  }

  /** One `key=value` item of the joined list. */
  function Item(p: Param): string {
    p.key + "=" + p.value
  }

  function Items(ps: seq<Param>): (r: seq<string>)
    ensures |r| == |ps| && forall i :: 0 <= i < |ps| ==> r[i] == Item(ps[i])
  {
    if ps == [] then [] else [Item(ps[0])] + Items(ps[1..])
  }

  /** _joinParams: appends each item, putting `&` before it whenever the output
      is already non-empty. */
  method JoinParams(ps: seq<Param>) returns (output: string)
    ensures output == JoinWith(Items(ps), '&')
  {
    output := "";
    for i := 0 to |ps|
      invariant output == JoinWith(Items(ps[..i]), '&')
      invariant i > 0 ==> |output| > 0
    {
      assert ps[..i + 1] == ps[..i] + [ps[i]];
      assert Items(ps[..i + 1]) == Items(ps[..i]) + [Item(ps[i])];
      if |output| > 0 {
        output := output + "&";
      }
      output := output + (ps[i].key + "=" + ps[i].value);
      if i > 0 {
        JoinWithSnoc(Items(ps[..i]), Item(ps[i]), '&');
      }
    }
    assert ps[..|ps|] == ps;
  }

  /** The joined list is empty exactly when there are no parameters. */
  lemma JoinedEmpty(ps: seq<Param>)
    ensures JoinWith(Items(ps), '&') == "" <==> ps == []
  {
    if |ps| == 1 {
      assert Item(ps[0])[|ps[0].key|] == '=';
    } else if |ps| > 1 {
      assert Item(ps[0])[|ps[0].key|] == '=';
      assert JoinWith(Items(ps), '&')[|ps[0].key|] == '=';
    }
  }

  lemma ItemFreeOf(p: Param, c: char)
    requires c != '=' && c !in p.key && c !in p.value
    ensures c !in Item(p)
  {
  }

  /** When no key or value holds `&`, splitting the joined list on `&` gives
      back exactly the `key=value` items: one `&` between neighbours and none
      at either end. */
  lemma JoinedSplitsIntoItems(ps: seq<Param>)
    requires |ps| >= 1
    requires forall i :: 0 <= i < |ps| ==> '&' !in ps[i].key && '&' !in ps[i].value
    ensures Split(JoinWith(Items(ps), '&'), '&') == Items(ps)
  {
    var items := Items(ps);
    forall i | 0 <= i < |items|
      ensures '&' !in items[i]
    {
      ItemFreeOf(ps[i], '&');
    }
    SplitJoin(items, '&');
  }

  /** `collected` is the parameter string for some order the key sort may
      leave the encoded parameters in. */
  ghost predicate IsCollected(enc: Encoder, collected: string, params: seq<Param>, queryParams: seq<Param>) {
    exists arranged ::
      Arrangement(arranged, EncodeAll(enc, params) + EncodeAll(enc, queryParams)) &&
      collected == JoinWith(Items(arranged), '&')
  }

  /** The second half of _collectParameters: copy into an array, sort it in
      place by key, join. */
  method SortAndJoin(encoded: seq<Param>) returns (collected: string)
    ensures exists arranged :: Arrangement(arranged, encoded) && collected == JoinWith(Items(arranged), '&')
  {
    var a := new Param[|encoded|](k requires 0 <= k < |encoded| => encoded[k]);
    assert a[..] == encoded;
    SortEncodedParams(a);
    collected := JoinParams(a[..]);
    assert Arrangement(a[..], encoded);
  }

  /** _collectParameters: encode, sort in place, join. */
  method CollectParameters(enc: Encoder, params: seq<Param>, queryParams: seq<Param>)
    returns (collected: string)
    ensures IsCollected(enc, collected, params, queryParams)
  {
    var encoded := PercentEncodeParams(enc, params, queryParams);
    assert encoded == EncodeAll(enc, params) + EncodeAll(enc, queryParams);
    collected := SortAndJoin(encoded);
  }

  /** Every key names one entry at most (identical duplicates aside). */
  ghost predicate KeysDetermine(m: multiset<Param>) {
    forall p, q :: p in m && q in m && p.key == q.key ==> p == q
  }

  predicate DistinctKeys(s: seq<Param>) {
    forall i, j :: 0 <= i < j < |s| ==> s[i].key != s[j].key
  }

  lemma DistinctKeysDetermine(s: seq<Param>)
    requires DistinctKeys(s)
    ensures KeysDetermine(multiset(s))
  {
    forall p, q | p in multiset(s) && q in multiset(s) && p.key == q.key
      ensures p == q
    {
      var i :| 0 <= i < |s| && s[i] == p;
      var j :| 0 <= j < |s| && s[j] == q;
      assert i == j;
    }
  }

  /** The entry with the least key comes first in any sorted arrangement. */
  lemma SortedHeadsEqual(x: seq<Param>, y: seq<Param>)
    requires |x| > 0 && SortedByKey(x) && SortedByKey(y) && multiset(x) == multiset(y)
    requires KeysDetermine(multiset(x))
    ensures |y| > 0 && x[0] == y[0]
  {
    assert |multiset(y)| == |x|;
    assert x[0] in multiset(y) && y[0] in multiset(x);
    var j :| 0 <= j < |y| && y[j] == x[0];
    var i :| 0 <= i < |x| && x[i] == y[0];
    assert NotAfter(x[0].key, y[0].key) by {
      if i == 0 { LessIrreflexive(x[0].key); }
    }
    assert NotAfter(y[0].key, x[0].key) by {
      if j == 0 { LessIrreflexive(y[0].key); }
    }
    NotAfterAntisymmetric(x[0].key, y[0].key);
  }

  lemma KeysDetermineShrinks(small: multiset<Param>, large: multiset<Param>)
    requires small <= large && KeysDetermine(large)
    ensures KeysDetermine(small)
  {
  }

  lemma TailsAgree(x: seq<Param>, y: seq<Param>)
    requires |x| > 0 && |y| > 0 && x[0] == y[0] && multiset(x) == multiset(y)
    ensures multiset(x[1..]) == multiset(y[1..])
    ensures multiset(x[1..]) <= multiset(x)
  {
    MultisetHead(x);
    MultisetHead(y);
    MultisetCancel(multiset(x[1..]), multiset(y[1..]), x[0]);
  }

  lemma SortedTail(s: seq<Param>)
    requires |s| > 0 && SortedByKey(s)
    ensures SortedByKey(s[1..])
  {
    forall i, j | 0 <= i < j < |s| - 1
      ensures NotAfter(s[1..][i].key, s[1..][j].key)
    {
      assert s[1..][i] == s[i + 1] && s[1..][j] == s[j + 1];
    }
  }

  /** When keys determine entries, there is only one sorted arrangement. */
  lemma {:induction false} ArrangementUnique(x: seq<Param>, y: seq<Param>)
    requires SortedByKey(x) && SortedByKey(y) && multiset(x) == multiset(y)
    requires KeysDetermine(multiset(x))
    ensures x == y
    decreases |x|
  {
    if x == [] {
      assert |multiset(y)| == 0;
    } else {
      SortedHeadsEqual(x, y);
      TailsAgree(x, y);
      SortedTail(x);
      SortedTail(y);
      KeysDetermineShrinks(multiset(x[1..]), multiset(x));
      ArrangementUnique(x[1..], y[1..]);
      assert x == [x[0]] + x[1..] && y == [y[0]] + y[1..];
    }
  }

  /** With distinct encoded keys, the collected parameter string does not
      depend on the order the parameters were supplied in, nor on how they
      were split between `params` and `queryParams`. */
  lemma CollectOrderIndependent(enc: Encoder,
                                p1: seq<Param>, q1: seq<Param>, s1: seq<Param>,
                                p2: seq<Param>, q2: seq<Param>, s2: seq<Param>)
    requires multiset(p1 + q1) == multiset(p2 + q2)
    requires DistinctKeys(EncodeAll(enc, p1 + q1))
    requires Arrangement(s1, EncodeAll(enc, p1) + EncodeAll(enc, q1))
    requires Arrangement(s2, EncodeAll(enc, p2) + EncodeAll(enc, q2))
    ensures s1 == s2
    ensures JoinWith(Items(s1), '&') == JoinWith(Items(s2), '&')
  {
    EncodeAllAppend(enc, p1, q1);
    EncodeAllAppend(enc, p2, q2);
    EncodeAllPermutation(enc, p1 + q1, p2 + q2);
    DistinctKeysDetermine(EncodeAll(enc, p1 + q1));
    ArrangementUnique(s1, s2);
  }

  /** Entries with one key are sorted in either order. */
  lemma SameKeyArrangements(p: Param, q: Param)
    requires p.key == q.key
    ensures Arrangement([p, q], [p, q]) && Arrangement([q, p], [p, q])
  {
    LessIrreflexive(p.key);
    assert multiset([q, p]) == multiset([p, q]);
  }

  /** Two entries join to `key=value&key=value`. */
  lemma JoinedPair(p: Param, q: Param)
    ensures JoinWith(Items([p, q]), '&') == Item(p) + "&" + Item(q)
  {
    assert Items([p, q]) == [Item(p), Item(q)];
    JoinWithTwo(Item(p), Item(q), '&');
  }

  /** Sorting by key alone does not fix the order of entries that share a
      key: both orders of `a=1` and `a=2` are arrangements of the same
      entries, and they join to different parameter strings. Section
      3.4.1.3.2 of RFC 5849 breaks such ties by value. */
  lemma DuplicateKeysAmbiguous()
    ensures var e := [Param("a", "1"), Param("a", "2")];
      var swapped := [Param("a", "2"), Param("a", "1")];
      Arrangement(e, e) && Arrangement(swapped, e) &&
      JoinWith(Items(e), '&') != JoinWith(Items(swapped), '&')
  {
    var e := [Param("a", "1"), Param("a", "2")];
    var swapped := [Param("a", "2"), Param("a", "1")];
    assert swapped == [e[1], e[0]];
    SameKeyArrangements(e[0], e[1]);
    JoinedPair(e[0], e[1]);
    JoinedPair(e[1], e[0]);
    assert |Item(e[0])| == 3 && Item(e[0])[2] == '1';
    assert |Item(e[1])| == 3 && Item(e[1])[2] == '2';
    assert JoinWith(Items(e), '&')[2] == '1';
    assert JoinWith(Items(swapped), '&')[2] == '2';
  }
}
