/** The Golomb-coded set of src/blockfilter.cpp: built from elements, queried for any of several. */
module GolombSet {
  import opened Common
  import opened Powers
  import opened GolombCode

  /** The keyed hash of an element, the code parameter P and the false-positive parameter M. */
  datatype Params<!E> = Params(siphash: E -> nat, p: nat, m: nat)

  /** A filter: how many elements, the range they are mapped into, and the coded differences. */
  datatype Filter<!E> = Filter(params: Params<E>, n: nat, f: nat, bits: seq<bool>)

  // ---------------------------------------------------------------- sorting

  ghost predicate Sorted(s: seq<nat>) { forall i, j :: 0 <= i < j < |s| ==> s[i] <= s[j] }

  function Insert(x: nat, s: seq<nat>): seq<nat> {
    if s == [] then [x] else if x <= s[0] then [x] + s else [s[0]] + Insert(x, s[1..])
  }

  lemma {:induction false} InsertAdds(x: nat, s: seq<nat>)
    ensures multiset(Insert(x, s)) == multiset(s) + multiset{x}
  {
    if s != [] && x > s[0] {
      InsertAdds(x, s[1..]);
      assert s == [s[0]] + s[1..];
    }
  }

  lemma {:induction false} InsertKeeps(x: nat, s: seq<nat>)
    requires Sorted(s)
    ensures Sorted(Insert(x, s)) && forall y :: y in Insert(x, s) ==> y == x || y in s
  {
    if s != [] && x > s[0] {
      InsertKeeps(x, s[1..]);
      var rest := Insert(x, s[1..]);
      forall i | 0 <= i < |rest| ensures rest[i] >= s[0] {
        assert rest[i] in rest;
      }
      hide Insert;
      assert Sorted([s[0]] + rest);
    } else {
      assert Sorted([x] + s);
    }
  }

  function Sort(s: seq<nat>): seq<nat> { if s == [] then [] else Insert(s[|s| - 1], Sort(s[..|s| - 1])) }

  lemma {:induction false} SortSorts(s: seq<nat>)
    ensures Sorted(Sort(s)) && multiset(Sort(s)) == multiset(s)
  {
    if s != [] {
      var n := |s| - 1;
      SortSorts(s[..n]);
      InsertKeeps(s[n], Sort(s[..n]));
      InsertAdds(s[n], Sort(s[..n]));
      assert s == s[..n] + [s[n]];
    }
  }

  lemma SameMembers(s: seq<nat>, r: seq<nat>)
    requires multiset(s) == multiset(r)
    ensures |s| == |r| && forall x :: x in s <==> x in r
  {
    assert |multiset(s)| == |s| && |multiset(r)| == |r|;
    assert forall x :: x in s <==> x in multiset(s);
    assert forall x :: x in r <==> x in multiset(r);
  }

  // ---------------------------------------------------------------- hashing into the range

  function HashToRange<E>(params: Params<E>, f: nat, e: E): nat { (params.siphash(e) % TWO64) * f / TWO64 }

  lemma RangeBound<E>(params: Params<E>, f: nat, e: E)
    requires f < TWO64
    ensures HashToRange(params, f, e) < TWO64 && (f > 0 ==> HashToRange(params, f, e) < f)
  {
    BelowRange(params.siphash(e) % TWO64, f);
  }

  function Hashes<E>(params: Params<E>, f: nat, elements: seq<E>): (r: seq<nat>)
    ensures |r| == |elements| && forall i :: 0 <= i < |elements| ==> r[i] == HashToRange(params, f, elements[i])
  {
    seq(|elements|, i requires 0 <= i < |elements| => HashToRange(params, f, elements[i]))
  }

  method BuildHashedSet<E>(params: Params<E>, f: nat, elements: seq<E>) returns (r: seq<nat>)
    requires f < TWO64
    ensures Sorted(r) && |r| == |elements|
    ensures forall x :: x in r <==> exists i :: 0 <= i < |elements| && x == HashToRange(params, f, elements[i])
    ensures forall i :: 0 <= i < |r| ==> r[i] < TWO64
  {
    hide HashToRange;
    var hashed := [];
    for i := 0 to |elements|
      invariant hashed == Hashes(params, f, elements)[..i]
    {
      RangeBound(params, f, elements[i]);
      var h := MapIntoRange(params.siphash(elements[i]) % TWO64, f);
      HashIs(params, f, elements[i]);
      hashed := hashed + [h];
    }
    assert hashed == Hashes(params, f, elements);
    r := Sort(hashed);
    SortSorts(hashed);
    SameMembers(r, hashed);
    forall i | 0 <= i < |r| ensures r[i] < TWO64 {
      assert r[i] in hashed;
      var k :| 0 <= k < |elements| && r[i] == HashToRange(params, f, elements[k]);
      RangeBound(params, f, elements[k]);
    }
  }

  lemma HashIs<E>(params: Params<E>, f: nat, e: E)
    ensures HashToRange(params, f, e) == (params.siphash(e) % TWO64) * f / TWO64
  {
  }

  // ---------------------------------------------------------------- the coded stream

  function Last(values: seq<nat>): nat { if values == [] then 0 else values[|values| - 1] }

  /** The codes of the successive differences. */
  function Stream(p: nat, values: seq<nat>): seq<bool>
    requires Sorted(values)
  {
    if values == [] then []
    else
      var rest := values[..|values| - 1];
      Stream(p, rest) + Code(p, values[|values| - 1] - Last(rest))
  }

  lemma {:induction false} StreamPrefix(p: nat, values: seq<nat>, i: nat)
    requires Sorted(values) && i <= |values|
    ensures Stream(p, values[..i]) <= Stream(p, values)
  {
    if i == |values| {
      assert values[..i] == values;
    } else {
      var rest := values[..|values| - 1];
      StreamPrefix(p, rest, i);
      assert rest[..i] == values[..i];
    }
  }

  lemma StreamStep(p: nat, values: seq<nat>, i: nat)
    requires Sorted(values) && i < |values|
    ensures values[i] >= Last(values[..i])
    ensures Stream(p, values[..i + 1]) == Stream(p, values[..i]) + Code(p, values[i] - Last(values[..i]))
  {
    assert values[..i + 1][..i] == values[..i];
  }

  /** The filter's bits hold exactly these values, in order, and at most seven bits more. */
  ghost predicate Holds(p: nat, bits: seq<bool>, values: seq<nat>) {
    && Sorted(values) && (forall i :: 0 <= i < |values| ==> values[i] < TWO64)
    && Stream(p, values) <= bits && |bits| < |Stream(p, values)| + 8 && |bits| % 8 == 0
  }

  /** What the decoder reads at the i-th place. */
  lemma ReadsNext(p: nat, bits: seq<bool>, values: seq<nat>, i: nat)
    requires Holds(p, bits, values) && i < |values|
    ensures var pos := |Stream(p, values[..i])|;
            && pos <= |bits| && values[i] >= Last(values[..i])
            && Decoded(p, bits[pos..]) == Some((values[i] - Last(values[..i]), |Stream(p, values[..i + 1])| - pos))
  {
    hide Code, Decoded;
    StreamPrefix(p, values, i + 1);
    StreamStep(p, values, i);
    var before, after := Stream(p, values[..i]), Stream(p, values[..i + 1]);
    var code := Code(p, values[i] - Last(values[..i]));
    hide Stream;
    assert after <= bits;
    var rest := bits[|after|..];
    assert bits == after + rest;
    assert bits[|before|..] == code + rest;
    DecodeCode(p, values[i] - Last(values[..i]), rest);
  }

  /** Pad with zeros to the next byte boundary. */
  function Flush(bits: seq<bool>): (r: seq<bool>)
    ensures bits <= r && |r| < |bits| + 8 && |r| % 8 == 0
    ensures forall i :: |bits| <= i < |r| ==> !r[i]
  {
    bits + seq((8 - |bits| % 8) % 8, _ => false)
  }

  /** Code a set of elements; refused from 2^32 elements on. */
  method Build<E>(params: Params<E>, elements: seq<E>) returns (r: Option<Filter<E>>, ghost values: seq<nat>)
    requires params.m < TWO32
    ensures r.Some? <==> |elements| < TWO32
    ensures r.Some? ==>
              && r.value.params == params && r.value.n == |elements| == |values| && r.value.f == |elements| * params.m
              && Holds(params.p, r.value.bits, values)
              && (forall i :: |Stream(params.p, values)| <= i < |r.value.bits| ==> !r.value.bits[i])
              && forall x :: x in values <==>
                   exists i :: 0 <= i < |elements| && x == HashToRange(params, r.value.f, elements[i])
  {
    hide HashToRange, Code;
    values := [];
    var n := |elements|;
    if n >= TWO32 {
      return None, values;
    }
    FitsIn64(n, params.m);
    var f := n * params.m;
    var hashed := BuildHashedSet(params, f, elements);
    values := hashed;
    var bits: seq<bool> := [];
    var last := 0;
    for i := 0 to |hashed|
      invariant last == Last(hashed[..i]) && bits == Stream(params.p, hashed[..i])
    {
      StreamStep(params.p, hashed, i);
      var delta := hashed[i] - last;
      bits := GolombRiceEncode(bits, params.p, delta);
      last := hashed[i];
    }
    assert hashed[..|hashed|] == hashed;
    r := Some(Filter(params, n, f, Flush(bits)));
  }

  lemma FitsIn64(n: nat, m: nat)
    requires n < TWO32 && m < TWO32
    ensures n * m < TWO64
  {
    MulLe(n, TWO32 - 1, m);
    MulLe(m, TWO32 - 1, TWO32 - 1);
  }

  // ---------------------------------------------------------------- reading any filter

  /** How far the codes are read, their running sums in 64 bits, and the sum without that limit. */
  datatype Progress = Progress(pos: nat, sums: seq<nat>, total: nat)

  /** Addition of 64-bit numbers. */
  function Add64(a: nat, b: nat): nat { (a + b) % TWO64 }

  lemma Add64Wraps(a: nat, b: nat)
    requires a < TWO64 && b < TWO64
    ensures Add64(a, b) == if a + b < TWO64 then a + b else a + b - TWO64
  {
  }

  function Advanced(st: Progress, found: (nat, nat)): Progress {
    Progress(st.pos + found.1, st.sums + [Add64(Last(st.sums), found.0)], st.total + found.0)
  }

  /** After n codes, or None if the data ends first. */
  function ReadTo(p: nat, bits: seq<bool>, n: nat): (r: Option<Progress>)
    ensures r.Some? ==> r.value.pos <= |bits| && |r.value.sums| == n
  {
    if n == 0 then Some(Progress(0, [], 0))
    else
      match ReadTo(p, bits, n - 1)
      case None => None
      case Some(st) =>
        match Decoded(p, bits[st.pos..])
        case None => None
        case Some(found) => Some(Advanced(st, found))
  }

  lemma {:induction false} StaysNone(p: nat, bits: seq<bool>, i: nat, n: nat)
    requires i <= n && ReadTo(p, bits, i).None?
    ensures ReadTo(p, bits, n).None?
    decreases n
  {
    hide Decoded, Advanced;
    if i < n {
      StaysNone(p, bits, i, n - 1);
    }
  }

  lemma {:induction false} SumsPrefix(p: nat, bits: seq<bool>, i: nat, n: nat)
    requires i <= n && ReadTo(p, bits, n).Some?
    ensures ReadTo(p, bits, i).Some? && ReadTo(p, bits, n).value.sums[..i] == ReadTo(p, bits, i).value.sums
    decreases n
  {
    hide Decoded;
    if i < n {
      SumsPrefix(p, bits, i, n - 1);
    }
  }

  /** What the i-th place holds. */
  lemma ReadStep(p: nat, bits: seq<bool>, i: nat)
    requires ReadTo(p, bits, i).Some?
    ensures var st := ReadTo(p, bits, i).value;
            ReadTo(p, bits, i + 1) ==
              match Decoded(p, bits[st.pos..]) case None => None case Some(found) => Some(Advanced(st, found))
  {
    hide Decoded, Advanced;
  }

  lemma SortedGrows(s: seq<nat>, x: nat)
    ensures Sorted(s + [x]) <==> Sorted(s) && Last(s) <= x
  {
    if Sorted(s + [x]) {
      forall i, j | 0 <= i < j < |s| ensures s[i] <= s[j] {
        assert (s + [x])[i] <= (s + [x])[j];
      }
      assert s != [] ==> (s + [x])[|s| - 1] <= (s + [x])[|s|];
    }
  }

  lemma DecodedBelow(p: nat, bits: seq<bool>)
    ensures Decoded(p, bits).Some? ==> Decoded(p, bits).value.0 < TWO64
  {
  }

  /** The sums stay sorted exactly when the whole of the differences fits in 64 bits. */
  lemma {:induction false} SortedIffFits(p: nat, bits: seq<bool>, n: nat)
    requires ReadTo(p, bits, n).Some?
    ensures var st := ReadTo(p, bits, n).value;
            && (Sorted(st.sums) <==> st.total < TWO64)
            && (st.total < TWO64 ==> Last(st.sums) == st.total)
  {
    if n == 0 {
      ReadStart(p, bits);
      assert Sorted([]);
    } else {
      hide Decoded, Sorted, ReadTo, Advanced;
      if ReadTo(p, bits, n - 1) == None {
        StaysNone(p, bits, n - 1, n);
      }
      SortedIffFits(p, bits, n - 1);
      ReadStep(p, bits, n - 1);
      var st := ReadTo(p, bits, n - 1).value;
      DecodedBelow(p, bits[st.pos..]);
      KeepsFitting(st, Decoded(p, bits[st.pos..]).value);
    }
  }

  lemma KeepsFitting(st: Progress, found: (nat, nat))
    requires found.0 < TWO64
    requires (Sorted(st.sums) <==> st.total < TWO64) && (st.total < TWO64 ==> Last(st.sums) == st.total)
    ensures var after := Advanced(st, found);
            && (Sorted(after.sums) <==> after.total < TWO64)
            && (after.total < TWO64 ==> Last(after.sums) == after.total)
  {
    hide Sorted, Add64;
    SortedGrows(st.sums, Add64(Last(st.sums), found.0));
    if st.total < TWO64 {
      Add64Wraps(st.total, found.0);
    }
  }

  lemma ParsesNext(p: nat, bits: seq<bool>, values: seq<nat>, i: nat)
    requires Holds(p, bits, values) && i < |values|
    requires ReadTo(p, bits, i) == Some(Progress(|Stream(p, values[..i])|, values[..i], Last(values[..i])))
    ensures ReadTo(p, bits, i + 1) == Some(Progress(|Stream(p, values[..i + 1])|, values[..i] + [values[i]], values[i]))
  {
    hide ReadTo, Decoded, Holds, Stream, Last, Add64;
    ReadsNext(p, bits, values, i);
    ReadStep(p, bits, i);
    ValueFits(p, bits, values, i);
    Add64Wraps(Last(values[..i]), values[i] - Last(values[..i]));
  }

  /** A built filter reads back as its values. */
  lemma {:induction false} ParsesValues(p: nat, bits: seq<bool>, values: seq<nat>, i: nat)
    requires Holds(p, bits, values) && i <= |values|
    ensures ReadTo(p, bits, i) == Some(Progress(|Stream(p, values[..i])|, values[..i], Last(values[..i])))
  {
    hide Decoded, Holds, Code;
    if i == 0 {
      assert values[..0] == [];
    } else {
      ParsesValues(p, bits, values, i - 1);
      hide ReadTo, Stream;
      ParsesNext(p, bits, values, i - 1);
      assert values[..i] == values[..i - 1] + [values[i - 1]];
    }
  }

  lemma ValueFits(p: nat, bits: seq<bool>, values: seq<nat>, i: nat)
    requires Holds(p, bits, values) && i < |values|
    ensures values[i] < TWO64
  {
  }

  /** All n codes are there and no byte comes after them. */
  predicate Complete(p: nat, bits: seq<bool>, n: nat) {
    ReadTo(p, bits, n).Some? && (ReadTo(p, bits, n).value.pos + 7) / 8 * 8 == |bits|
  }

  /** The check on received filters. */
  method Verify(p: nat, bits: seq<bool>, n: nat) returns (ok: bool)
    ensures ok <==> Complete(p, bits, n)
  {
    hide Decoded;
    var pos := 0;
    for i := 0 to n
      invariant pos <= |bits| && ReadTo(p, bits, i).Some? && ReadTo(p, bits, i).value.pos == pos
    {
      var good, delta, next := GolombRiceDecode(bits, p, pos);
      if !good {
        StaysNone(p, bits, i + 1, n);
        return false;
      }
      pos := next;
    }
    ok := (pos + 7) / 8 * 8 == |bits|;
  }

  /** Every built filter passes that check, and holds what it was built from. */
  lemma BuiltVerifies(p: nat, bits: seq<bool>, values: seq<nat>)
    requires Holds(p, bits, values)
    ensures Complete(p, bits, |values|) && ReadTo(p, bits, |values|).value.sums == values
  {
    hide ReadTo, Stream, Decoded, Sorted;
    ParsesValues(p, bits, values, |values|);
    assert values[..|values|] == values;
    RoundUp(|Stream(p, values)|, |bits|);
  }

  lemma RoundUp(n: nat, m: nat)
    requires n <= m < n + 8 && m % 8 == 0
    ensures (n + 7) / 8 * 8 == m
  {
  }

  // ---------------------------------------------------------------- matching

  /** The value at the i-th place is not below any before it. */
  ghost predicate Record(values: seq<nat>, i: nat)
    requires i < |values|
  {
    forall k :: 0 <= k < i ==> values[k] <= values[i]
  }

  /** Some query equals a value that is not below any before it. */
  ghost predicate Finds(values: seq<nat>, queries: seq<nat>) {
    exists i: nat :: i < |values| && Record(values, i) && values[i] in queries
  }

  /** In a sorted list that is every value. */
  lemma FindsSorted(values: seq<nat>, queries: seq<nat>)
    requires Sorted(values)
    ensures Finds(values, queries) <==> exists x :: x in queries && x in values
  {
    if x :| x in queries && x in values {
      var i :| 0 <= i < |values| && values[i] == x;
      assert Record(values, i);
    }
  }

  /** Before the i-th value: the queries before h are below the highest value so far and the others above
      it, and no query was found. */
  ghost predicate Walked(values: seq<nat>, queries: seq<nat>, i: nat, h: nat, top: int)
    requires i <= |values| && h <= |queries|
  {
    && (forall k :: 0 <= k < i ==> values[k] <= top)
    && (i > 0 || top == -1)
    && (i > 0 ==> exists k :: 0 <= k < i && values[k] == top)
    && (forall k :: 0 <= k < h ==> queries[k] < top)
    && (forall k :: h <= k < |queries| ==> queries[k] > top)
    && (forall k :: 0 <= k < i && Record(values, k) ==> values[k] !in queries)
  }

  /** A filter that either constructor can have made. */
  predicate Readable<E>(filter: Filter<E>) { ReadTo(filter.params.p, filter.bits, filter.n).Some? }

  /** The values it holds. */
  function Sums<E>(filter: Filter<E>): (values: seq<nat>)
    requires Readable(filter)
    ensures |values| == filter.n
  {
    ReadTo(filter.params.p, filter.bits, filter.n).value.sums
  }

  /** Walk the coded values and the sorted queries side by side. The data never ends too early. */
  method MatchInternal<E>(filter: Filter<E>, queries: seq<nat>) returns (r: bool)
    requires Readable(filter) && Sorted(queries)
    ensures r <==> Finds(Sums(filter), queries)
  {
    ghost var p, bits, n := filter.params.p, filter.bits, filter.n;
    ghost var values := Sums(filter);
    assert values == ReadTo(p, bits, n).value.sums;
    hide Decoded, ReadTo, Record, Sorted, Add64, Walked, Finds;
    ghost var top := -1;
    var pos, value, h := 0, 0, 0;
    ReadStart(p, bits);
    WalkStart(values, queries);
    for i := 0 to filter.n
      invariant pos <= |bits| && ReadTo(p, bits, i).Some? && ReadTo(p, bits, i).value.pos == pos
      invariant value == Last(ReadTo(p, bits, i).value.sums)
      invariant h <= |queries| && Walked(values, queries, i, h, top)
    {
      SumsPrefix(p, bits, i + 1, n);
      ReadStep(p, bits, i);
      var ok, delta, next := GolombRiceDecode(filter.bits, filter.params.p, pos);
      assert ok;
      value, pos := Add64(value, delta), next;
      assert values[..i + 1][i] == value;
      ghost var before := h;
      h := Advance(queries, h, value);
      WalksOn(values, queries, i, before, h, top);
      if h == |queries| {
        return false;
      }
      if queries[h] == value {
        return true;
      }
      top := Max(top, value);
    }
    WalkEnd(values, queries, h, top);
    r := false;
  }

  /** Skip the queries below a value. */
  method Advance(queries: seq<nat>, from: nat, value: nat) returns (h: nat)
    requires from <= |queries|
    ensures from <= h <= |queries|
    ensures forall k :: from <= k < h ==> queries[k] < value
    ensures h < |queries| ==> queries[h] >= value
  {
    h := from;
    while h < |queries| && queries[h] < value
      invariant from <= h <= |queries|
      invariant forall k :: from <= k < h ==> queries[k] < value
    {
      h := h + 1;
    }
  }

  /** One more value and where its step leads. */
  lemma WalksOn(values: seq<nat>, queries: seq<nat>, i: nat, from: nat, h: nat, top: int)
    requires i < |values| && from <= h <= |queries| && Sorted(queries) && Walked(values, queries, i, from, top)
    requires forall k :: from <= k < h ==> queries[k] < values[i]
    requires h < |queries| ==> queries[h] >= values[i]
    ensures h == |queries| ==> !Finds(values, queries)
    ensures h < |queries| && queries[h] == values[i] ==> Finds(values, queries)
    ensures h < |queries| && queries[h] != values[i] ==> Walked(values, queries, i + 1, h, Max(top, values[i]))
  {
    var v := values[i];
    if h == |queries| {
      forall j: nat | j < |values| && Record(values, j) ensures values[j] !in queries {
        if j >= i {
          assert values[j] >= v && values[j] >= top;
        }
      }
    } else if queries[h] == v {
      assert Record(values, i) && v in queries;
    } else {
      assert forall k :: h <= k < |queries| ==> queries[k] >= queries[h];
      assert v !in queries || v < top;
      assert Record(values, i) ==> v >= top;
      if i > 0 && top >= v {
        var k :| 0 <= k < i && values[k] == top;
      }
    }
  }

  lemma WalkStart(values: seq<nat>, queries: seq<nat>)
    ensures Walked(values, queries, 0, 0, -1)
  {
  }

  lemma WalkEnd(values: seq<nat>, queries: seq<nat>, h: nat, top: int)
    requires h <= |queries| && Walked(values, queries, |values|, h, top)
    ensures !Finds(values, queries)
  {
  }

  lemma ReadStart(p: nat, bits: seq<bool>)
    ensures ReadTo(p, bits, 0) == Some(Progress(0, [], 0))
  {
  }

  method MatchAny<E>(filter: Filter<E>, queries: seq<E>) returns (r: bool)
    requires filter.f < TWO64 && Readable(filter)
    ensures r <==> Finds(Sums(filter), Hashes(filter.params, filter.f, queries))
  {
    hide HashToRange, Sums, Record, ReadTo;
    var hashed := BuildHashedSet(filter.params, filter.f, queries);
    r := MatchInternal(filter, hashed);
    SameFinds(Sums(filter), hashed, Hashes(filter.params, filter.f, queries));
  }

  lemma SameFinds(values: seq<nat>, queries: seq<nat>, queries': seq<nat>)
    requires forall x :: x in queries <==> exists i :: 0 <= i < |queries'| && x == queries'[i]
    ensures Finds(values, queries) <==> Finds(values, queries')
  {
    hide Record;
    assert forall x :: x in queries <==> x in queries';
  }

  /** When the values are those of a set of elements: a match is an element and a query with the same
      mapped value, so a member is never missed. */
  lemma MatchMeans<E>(params: Params<E>, f: nat, elements: seq<E>, queries: seq<E>, values: seq<nat>)
    requires Sorted(values)
    requires forall x :: x in values <==> exists i :: 0 <= i < |elements| && x == HashToRange(params, f, elements[i])
    ensures Finds(values, Hashes(params, f, queries)) <==> Meet(params, f, elements, queries)
    ensures (exists e :: e in elements && e in queries) ==> Meet(params, f, elements, queries)
  {
    var hashed := Hashes(params, f, queries);
    hide HashToRange, Sorted, Record;
    FindsSorted(values, hashed);
    if i, j :| 0 <= i < |elements| && 0 <= j < |queries| && Same(params, f, elements[i], queries[j]) {
      assert hashed[j] in hashed && hashed[j] in values;
    }
    if x :| x in hashed && x in values {
      var j :| 0 <= j < |hashed| && hashed[j] == x;
      var i :| 0 <= i < |elements| && x == HashToRange(params, f, elements[i]);
      assert Same(params, f, elements[i], queries[j]);
      assert Meet(params, f, elements, queries);
    }
    if e :| e in elements && e in queries {
      var i :| 0 <= i < |elements| && elements[i] == e;
      var j :| 0 <= j < |queries| && queries[j] == e;
      assert Same(params, f, elements[i], queries[j]);
    }
  }

  ghost predicate Same<E>(params: Params<E>, f: nat, a: E, b: E) {
    HashToRange(params, f, a) == HashToRange(params, f, b)
  }

  /** Some element and some query map to the same value. */
  ghost predicate Meet<E>(params: Params<E>, f: nat, elements: seq<E>, queries: seq<E>) {
    exists i, j :: 0 <= i < |elements| && 0 <= j < |queries| && Same(params, f, elements[i], queries[j])
  }

  /** Building a filter and querying it, end to end. */
  method BuildAndMatch<E>(params: Params<E>, elements: seq<E>, queries: seq<E>) returns (r: Option<bool>)
    requires params.m < TWO32
    ensures r.Some? <==> |elements| < TWO32
    ensures r.Some? ==> (r.value <==> Meet(params, |elements| * params.m, elements, queries))
    ensures r.Some? && (exists e :: e in elements && e in queries) ==> r.value
  {
    hide HashToRange, Stream, ReadTo, Finds, Sorted;
    var filter, values := Build(params, elements);
    if filter.None? {
      return None;
    }
    FitsIn64(|elements|, params.m);
    BuiltVerifies(params.p, filter.value.bits, values);
    var hit := MatchAny(filter.value, queries);
    MatchMeans(params, filter.value.f, elements, queries, values);
    r := Some(hit);
  }

  /** Receiving a filter and querying it: what passes the check can be read to the end, and a match is a
      query equal to a running sum that is not below any before it. */
  method ReceiveAndMatch<E>(params: Params<E>, n: nat, bits: seq<bool>, queries: seq<E>) returns (r: Option<bool>)
    requires params.m < TWO32 && n < TWO32
    ensures r.Some? <==> Complete(params.p, bits, n)
    ensures r.Some? ==>
              var st, hashed := ReadTo(params.p, bits, n).value, Hashes(params, n * params.m, queries);
              && (r.value <==> Finds(st.sums, hashed))
              && (st.total < TWO64 ==> (r.value <==> exists x :: x in hashed && x in st.sums))
  {
    hide HashToRange, ReadTo, Finds, Sorted;
    var ok := Verify(params.p, bits, n);
    if !ok {
      return None;
    }
    FitsIn64(n, params.m);
    var hit := MatchAny(Filter(params, n, n * params.m, bits), queries);
    SortedIffFits(params.p, bits, n);
    ghost var st := ReadTo(params.p, bits, n).value;
    if st.total < TWO64 {
      FindsSorted(st.sums, Hashes(params, n * params.m, queries));
    }
    r := Some(hit);
  }
}
