/**
  The partial quicksort of pqsort.c: Bentley and McIlroy's three-way partition, with the
  parts outside the wanted range left unsorted.
*/
module Pqsort {

  /** The sign conventions of a comparison function that orders all elements. */
  ghost predicate TotalPreorder<T(!new)>(cmp: (T, T) -> int) {
    && (forall x, y :: cmp(x, y) < 0 <==> cmp(y, x) > 0)
    && (forall x, y, z :: Chain(cmp, x, y, z))
  }

  ghost predicate Le<T>(cmp: (T, T) -> int, x: T, y: T) { cmp(x, y) <= 0 }

  ghost predicate Chain<T>(cmp: (T, T) -> int, x: T, y: T, z: T) {
    cmp(x, y) <= 0 && cmp(y, z) <= 0 ==> cmp(x, z) <= 0
  }

  // ---------------------------------------------------------------- rearranging a segment

  /** `t` is `s` with the elements of [lo, hi) rearranged. */
  ghost predicate Rearranged<T>(s: seq<T>, t: seq<T>, lo: nat, hi: nat) {
    && lo <= hi <= |s| == |t|
    && s[..lo] == t[..lo] && s[hi..] == t[hi..]
    && multiset(s[lo..hi]) == multiset(t[lo..hi])
  }

  function Swapped<T>(s: seq<T>, i: nat, j: nat): (t: seq<T>)
    requires i < |s| && j < |s|
    ensures |t| == |s|
  {
    s[i := s[j]][j := s[i]]
  }

  lemma RearrangedTransitive<T>(s: seq<T>, t: seq<T>, u: seq<T>, lo: nat, hi: nat)
    requires Rearranged(s, t, lo, hi) && Rearranged(t, u, lo, hi)
    ensures Rearranged(s, u, lo, hi)
  {
  }

  lemma SwapRearranges<T>(s: seq<T>, i: nat, j: nat, lo: nat, hi: nat)
    requires lo <= i < hi <= |s| && lo <= j < hi
    ensures Rearranged(s, Swapped(s, i, j), lo, hi)
  {
    var t := Swapped(s, i, j);
    assert t[lo..hi] == Swapped(s[lo..hi], i - lo, j - lo);
    SwapKeepsMultiset(s[lo..hi], i - lo, j - lo);
  }

  lemma SwapKeepsMultiset<T>(s: seq<T>, i: nat, j: nat)
    requires i < |s| && j < |s|
    ensures multiset(Swapped(s, i, j)) == multiset(s)
  {
  }

  /** A rearrangement of a part is a rearrangement of the whole. */
  lemma RearrangedWiden<T>(s: seq<T>, t: seq<T>, lo: nat, hi: nat, lo': nat, hi': nat)
    requires Rearranged(s, t, lo, hi) && lo' <= lo && hi <= hi' <= |s|
    ensures Rearranged(s, t, lo', hi')
  {
    assert s[lo'..hi'] == s[lo'..lo] + s[lo..hi] + s[hi..hi'];
    assert t[lo'..hi'] == t[lo'..lo] + t[lo..hi] + t[hi..hi'];
    assert s[lo'..lo] == t[lo'..lo] && s[hi..hi'] == t[hi..hi'];
  }

  /** Every element of the rearranged segment came from the segment. */
  lemma RearrangedSource<T>(s: seq<T>, t: seq<T>, lo: nat, hi: nat, i: nat)
    requires Rearranged(s, t, lo, hi) && lo <= i < hi
    ensures exists j :: lo <= j < hi && s[j] == t[i]
  {
    assert t[i] == t[lo..hi][i - lo];
    assert t[i] in multiset(t[lo..hi]);
    assert t[i] in multiset(s[lo..hi]);
    assert t[i] in s[lo..hi];
  }

  method Swap<T>(a: array<T>, i: nat, j: nat)
    requires i < a.Length && j < a.Length
    modifies a
    ensures a[..] == Swapped(old(a[..]), i, j)
  {
    a[i], a[j] := a[j], a[i];
  }

  // ---------------------------------------------------------------- insertion sort

  ghost predicate Sorted<T>(s: seq<T>, cmp: (T, T) -> int, lo: nat, hi: nat) {
    hi <= |s| && forall i, j {:trigger Le(cmp, s[i], s[j])} :: lo <= i < j < hi ==> Le(cmp, s[i], s[j])
  }

  /** [lo, hi) is sorted but for the element at `at`, which is below all those after it. */
  ghost predicate SortedBut<T>(s: seq<T>, cmp: (T, T) -> int, lo: nat, hi: nat, at: nat) {
    && lo <= at < hi <= |s|
    && (forall i, j {:trigger Le(cmp, s[i], s[j])} :: lo <= i < j < hi && i != at && j != at ==> Le(cmp, s[i], s[j]))
    && (forall j {:trigger Le(cmp, s[at], s[j])} :: at < j < hi ==> Le(cmp, s[at], s[j]))
  }

  lemma SinkOne<T>(s: seq<T>, cmp: (T, T) -> int, lo: nat, hi: nat, at: nat)
    requires SortedBut(s, cmp, lo, hi, at) && at > lo && Le(cmp, s[at], s[at - 1])
    ensures SortedBut(Swapped(s, at, at - 1), cmp, lo, hi, at - 1)
  {
    var t := Swapped(s, at, at - 1);
    assert t[at] == s[at - 1] && t[at - 1] == s[at];
  }

  lemma Settled<T(!new)>(s: seq<T>, cmp: (T, T) -> int, lo: nat, hi: nat, at: nat)
    requires TotalPreorder(cmp) && SortedBut(s, cmp, lo, hi, at) && (at == lo || cmp(s[at - 1], s[at]) <= 0)
    ensures Sorted(s, cmp, lo, hi)
  {
    forall i | lo <= i < at ensures Le(cmp, s[i], s[at]) {
      if i < at - 1 {
        assert Le(cmp, s[i], s[at - 1]);
        assert Chain(cmp, s[i], s[at - 1], s[at]);
      }
    }
  }

  method InsertionSort<T(!new)>(a: array<T>, cmp: (T, T) -> int, lo: nat, n: nat)
    requires TotalPreorder(cmp) && lo + n <= a.Length
    modifies a
    ensures Rearranged(old(a[..]), a[..], lo, lo + n) && Sorted(a[..], cmp, lo, lo + n)
  {
    if n == 0 { return; }
    var pm := lo + 1;
    while pm < lo + n
      invariant lo < pm <= lo + n
      invariant Rearranged(old(a[..]), a[..], lo, lo + n) && Sorted(a[..], cmp, lo, pm)
    {
      InsertOne(a, cmp, lo, lo + n, pm);
      pm := pm + 1;
    }
  }

  /** The inner loop: sink the element at `pm` into the sorted elements before it. */
  method InsertOne<T(!new)>(a: array<T>, cmp: (T, T) -> int, lo: nat, hi: nat, pm: nat)
    requires TotalPreorder(cmp) && lo <= pm < hi <= a.Length && Sorted(a[..], cmp, lo, pm)
    modifies a
    ensures Rearranged(old(a[..]), a[..], lo, hi) && Sorted(a[..], cmp, lo, pm + 1)
  {
    var pl := pm;
    while pl > lo && cmp(a[pl - 1], a[pl]) > 0
      invariant lo <= pl <= pm
      invariant Rearranged(old(a[..]), a[..], lo, hi) && SortedBut(a[..], cmp, lo, pm + 1, pl)
    {
      ghost var s := a[..];
      SinkOne(s, cmp, lo, pm + 1, pl);
      SwapRearranges(s, pl, pl - 1, lo, hi);
      Swap(a, pl, pl - 1);
      RearrangedTransitive(old(a[..]), s, a[..], lo, hi);
      pl := pl - 1;
    }
    Settled(a[..], cmp, lo, pm + 1, pl);
  }

  // ---------------------------------------------------------------- med3

  /** One of the three positions, holding a median of the three values. */
  function Med3<T>(s: seq<T>, cmp: (T, T) -> int, a: nat, b: nat, c: nat): (m: nat)
    requires a < |s| && b < |s| && c < |s|
    ensures m == a || m == b || m == c
  {
    if cmp(s[a], s[b]) < 0 then
      if cmp(s[b], s[c]) < 0 then b else if cmp(s[a], s[c]) < 0 then c else a
    else
      if cmp(s[b], s[c]) > 0 then b else if cmp(s[a], s[c]) < 0 then a else c
  }

  lemma Med3IsMedian<T(!new)>(s: seq<T>, cmp: (T, T) -> int, a: nat, b: nat, c: nat)
    requires TotalPreorder(cmp) && a < |s| && b < |s| && c < |s|
    ensures var m := Med3(s, cmp, a, b, c);
      && (m == a ==> Between(cmp, s[b], s[m], s[c]))
      && (m == b ==> Between(cmp, s[a], s[m], s[c]))
      && (m == c ==> Between(cmp, s[a], s[m], s[b]))
  {
  }

  ghost predicate Between<T>(cmp: (T, T) -> int, x: T, m: T, y: T) {
    (cmp(x, m) <= 0 && cmp(m, y) <= 0) || (cmp(y, m) <= 0 && cmp(m, x) <= 0)
  }

  // ---------------------------------------------------------------- partition

  /** During the scans, the pivot being s[lo]: equal elements at both ends, smaller ones from
      pa to pb, greater ones from pc (exclusive) to pd. */
  ghost predicate Bands<T>(s: seq<T>, cmp: (T, T) -> int, lo: nat, hi: nat, pa: int, pb: int, pc: int, pd: int) {
    && lo < pa <= pb <= pc + 1 && pc <= pd < hi <= |s|
    && (forall i :: lo <= i < pa ==> cmp(s[i], s[lo]) == 0)
    && (forall i :: pa <= i < pb ==> cmp(s[i], s[lo]) < 0)
    && (forall i :: pc < i <= pd ==> cmp(s[i], s[lo]) > 0)
    && (forall i :: pd < i < hi ==> cmp(s[i], s[lo]) == 0)
  }

  lemma BandsLow<T>(s: seq<T>, cmp: (T, T) -> int, lo: nat, hi: nat, pa: int, pb: int, pc: int, pd: int)
    requires Bands(s, cmp, lo, hi, pa, pb, pc, pd) && pb <= pc
    ensures cmp(s[pb], s[lo]) < 0 ==> Bands(s, cmp, lo, hi, pa, pb + 1, pc, pd)
    ensures cmp(s[pb], s[lo]) == 0 ==> Bands(Swapped(s, pa, pb), cmp, lo, hi, pa + 1, pb + 1, pc, pd)
  {
  }

  lemma BandsHigh<T>(s: seq<T>, cmp: (T, T) -> int, lo: nat, hi: nat, pa: int, pb: int, pc: int, pd: int)
    requires Bands(s, cmp, lo, hi, pa, pb, pc, pd) && pb <= pc
    ensures cmp(s[pc], s[lo]) > 0 ==> Bands(s, cmp, lo, hi, pa, pb, pc - 1, pd)
    ensures cmp(s[pc], s[lo]) == 0 ==> Bands(Swapped(s, pc, pd), cmp, lo, hi, pa, pb, pc - 1, pd - 1)
  {
  }

  lemma BandsCross<T>(s: seq<T>, cmp: (T, T) -> int, lo: nat, hi: nat, pa: int, pb: int, pc: int, pd: int)
    requires Bands(s, cmp, lo, hi, pa, pb, pc, pd) && pb < pc
    requires cmp(s[pb], s[lo]) > 0 && cmp(s[pc], s[lo]) < 0
    ensures Bands(Swapped(s, pb, pc), cmp, lo, hi, pa, pb + 1, pc - 1, pd)
  {
  }

  /** The left scan: while (pb <= pc && cmp(pb, a) <= 0). */
  method ScanUp<T(!new)>(a: array<T>, cmp: (T, T) -> int, lo: nat, hi: nat, pa0: nat, pb0: nat, pc: int, pd: int)
    returns (pa: nat, pb: nat, moved: bool)
    requires hi <= a.Length && Bands(a[..], cmp, lo, hi, pa0, pb0, pc, pd)
    modifies a
    ensures Rearranged(old(a[..]), a[..], lo, hi) && Bands(a[..], cmp, lo, hi, pa, pb, pc, pd)
    ensures pb >= pb0 && (pb <= pc ==> cmp(a[pb], a[lo]) > 0)
    ensures !moved ==> a[..] == old(a[..]) && pa == pa0
  {
    pa, pb, moved := pa0, pb0, false;
    while pb <= pc && cmp(a[pb], a[lo]) <= 0
      invariant pb0 <= pb && Bands(a[..], cmp, lo, hi, pa, pb, pc, pd)
      invariant Rearranged(old(a[..]), a[..], lo, hi)
      invariant !moved ==> a[..] == old(a[..]) && pa == pa0
      decreases pc - pb
    {
      ghost var s := a[..];
      BandsLow(s, cmp, lo, hi, pa, pb, pc, pd);
      if cmp(a[pb], a[lo]) == 0 {
        moved := true;
        SwapRearranges(s, pa, pb, lo, hi);
        Swap(a, pa, pb);
        RearrangedTransitive(old(a[..]), s, a[..], lo, hi);
        pa := pa + 1;
      }
      pb := pb + 1;
    }
  }

  /** The right scan: while (pb <= pc && cmp(pc, a) >= 0). */
  method ScanDown<T(!new)>(a: array<T>, cmp: (T, T) -> int, lo: nat, hi: nat, pa: nat, pb: nat, pc0: int, pd0: int)
    returns (pc: int, pd: int, moved: bool)
    requires hi <= a.Length && Bands(a[..], cmp, lo, hi, pa, pb, pc0, pd0)
    requires pb <= pc0 ==> cmp(a[pb], a[lo]) > 0
    modifies a
    ensures Rearranged(old(a[..]), a[..], lo, hi) && Bands(a[..], cmp, lo, hi, pa, pb, pc, pd)
    ensures pc <= pc0 && (pb <= pc ==> cmp(a[pc], a[lo]) < 0 && cmp(a[pb], a[lo]) > 0)
    ensures !moved ==> a[..] == old(a[..]) && pd == pd0
  {
    pc, pd, moved := pc0, pd0, false;
    while pb <= pc && cmp(a[pc], a[lo]) >= 0
      invariant pc <= pc0 && Bands(a[..], cmp, lo, hi, pa, pb, pc, pd)
      invariant pb <= pc ==> cmp(a[pb], a[lo]) > 0
      invariant Rearranged(old(a[..]), a[..], lo, hi)
      invariant !moved ==> a[..] == old(a[..]) && pd == pd0
      decreases pc - pb
    {
      ghost var s := a[..];
      BandsHigh(s, cmp, lo, hi, pa, pb, pc, pd);
      if cmp(a[pc], a[lo]) == 0 {
        moved := true;
        SwapRearranges(s, pc, pd, lo, hi);
        Swap(a, pc, pd);
        RearrangedTransitive(old(a[..]), s, a[..], lo, hi);
        pd := pd - 1;
      }
      pc := pc - 1;
    }
  }

  method ScanBoth<T(!new)>(a: array<T>, cmp: (T, T) -> int, lo: nat, hi: nat, pa0: nat, pb0: nat, pc0: int, pd0: int)
    returns (pa: nat, pb: nat, pc: int, pd: int, moved: bool)
    requires hi <= a.Length && Bands(a[..], cmp, lo, hi, pa0, pb0, pc0, pd0)
    modifies a
    ensures Rearranged(old(a[..]), a[..], lo, hi) && Bands(a[..], cmp, lo, hi, pa, pb, pc, pd)
    ensures pb0 <= pb && pc <= pc0 && (pb <= pc ==> pb < pc && cmp(a[pb], a[lo]) > 0 && cmp(a[pc], a[lo]) < 0)
  {
    var m1, m2;
    pa, pb, m1 := ScanUp(a, cmp, lo, hi, pa0, pb0, pc0, pd0);
    ghost var s := a[..];
    pc, pd, m2 := ScanDown(a, cmp, lo, hi, pa, pb, pc0, pd0);
    RearrangedTransitive(old(a[..]), s, a[..], lo, hi);
    moved := m1 || m2;
  }

  /** swap(pb, pc): a greater element on the left against a smaller one on the right. */
  method Cross<T(!new)>(a: array<T>, cmp: (T, T) -> int, lo: nat, hi: nat, pa: nat, pb: nat, pc: int, pd: int)
    requires hi <= a.Length && Bands(a[..], cmp, lo, hi, pa, pb, pc, pd)
    requires pb < pc && cmp(a[pb], a[lo]) > 0 && cmp(a[pc], a[lo]) < 0
    modifies a
    ensures Rearranged(old(a[..]), a[..], lo, hi) && Bands(a[..], cmp, lo, hi, pa, pb + 1, pc - 1, pd)
  {
    BandsCross(a[..], cmp, lo, hi, pa, pb, pc, pd);
    SwapRearranges(a[..], pb, pc, lo, hi);
    Swap(a, pb, pc);
  }

  /** The partition loop; `moved` is swap_cnt. */
  method Scan<T(!new)>(a: array<T>, cmp: (T, T) -> int, lo: nat, hi: nat)
    returns (pa: nat, pb: nat, pc: int, pd: int, moved: bool)
    requires TotalPreorder(cmp) && lo < hi <= a.Length
    modifies a
    ensures Rearranged(old(a[..]), a[..], lo, hi)
    ensures Bands(a[..], cmp, lo, hi, pa, pb, pc, pd) && pb == pc + 1
  {
    pa, pb, pc, pd, moved := lo + 1, lo + 1, hi - 1, hi - 1, false;
    while true
      invariant Rearranged(old(a[..]), a[..], lo, hi) && Bands(a[..], cmp, lo, hi, pa, pb, pc, pd)
      decreases pc - pb
    {
      ghost var s := a[..];
      var m;
      pa, pb, pc, pd, m := ScanBoth(a, cmp, lo, hi, pa, pb, pc, pd);
      RearrangedTransitive(old(a[..]), s, a[..], lo, hi);
      moved := moved || m;
      if pb > pc { break; }
      s := a[..];
      Cross(a, cmp, lo, hi, pa, pb, pc, pd);
      RearrangedTransitive(old(a[..]), s, a[..], lo, hi);
      moved := true;
      pb, pc := pb + 1, pc - 1;
    }
  }

  // ---------------------------------------------------------------- moving the equal elements inwards

  /** t is s with the blocks of length n at i and at j exchanged. */
  ghost predicate Exchanged<T>(s: seq<T>, t: seq<T>, i: nat, j: nat, n: nat) {
    && i + n <= j && j + n <= |s| == |t|
    && forall k {:trigger ExchangedAt(s, t, i, j, n, k)} :: 0 <= k < |t| ==> ExchangedAt(s, t, i, j, n, k)
  }

  ghost predicate ExchangedAt<T>(s: seq<T>, t: seq<T>, i: nat, j: nat, n: nat, k: nat)
    requires i + n <= j && j + n <= |s| == |t| && k < |t|
  {
    t[k] == if i <= k < i + n then s[k - i + j] else if j <= k < j + n then s[k - j + i] else s[k]
  }

  lemma ExchangeOneMore<T>(s: seq<T>, t: seq<T>, i: nat, j: nat, n: nat)
    requires Exchanged(s, t, i, j, n) && i + n < j && j + n < |s|
    ensures Exchanged(s, Swapped(t, i + n, j + n), i, j, n + 1)
  {
    var u := Swapped(t, i + n, j + n);
    forall k {:trigger ExchangedAt(s, u, i, j, n + 1, k)} | 0 <= k < |u| ensures ExchangedAt(s, u, i, j, n + 1, k) {
      assert ExchangedAt(s, t, i, j, n, k) && ExchangedAt(s, t, i, j, n, i + n) && ExchangedAt(s, t, i, j, n, j + n);
    }
  }

  lemma SwapOneMore<T>(s: seq<T>, t: seq<T>, i: nat, j: nat, lo: nat, hi: nat)
    requires Rearranged(s, t, lo, hi) && lo <= i < hi && lo <= j < hi
    ensures Rearranged(s, Swapped(t, i, j), lo, hi)
  {
    SwapRearranges(t, i, j, lo, hi);
    RearrangedTransitive(s, t, Swapped(t, i, j), lo, hi);
  }

  method VecSwapOne<T(!new)>(a: array<T>, i: nat, j: nat, k: nat, ghost s: seq<T>, ghost lo: nat, ghost hi: nat)
    requires lo <= i && i + k < j && j + k < hi <= a.Length
    requires Rearranged(s, a[..], lo, hi) && Exchanged(s, a[..], i, j, k)
    modifies a
    ensures Rearranged(s, a[..], lo, hi) && Exchanged(s, a[..], i, j, k + 1)
  {
    ExchangeOneMore(s, a[..], i, j, k);
    SwapOneMore(s, a[..], i + k, j + k, lo, hi);
    Swap(a, i + k, j + k);
  }

  method VecSwap<T(!new)>(a: array<T>, i: nat, j: nat, n: nat, ghost lo: nat, ghost hi: nat)
    requires lo <= i && i + n <= j && j + n <= hi <= a.Length
    modifies a
    ensures Rearranged(old(a[..]), a[..], lo, hi) && Exchanged(old(a[..]), a[..], i, j, n)
  {
    ghost var s := a[..];
    var k := 0;
    while k < n
      invariant 0 <= k <= n
      invariant Rearranged(s, a[..], lo, hi) && Exchanged(s, a[..], i, j, k)
    {
      VecSwapOne(a, i, j, k, s, lo, hi);
      k := k + 1;
    }
  }

  /** Smaller, equal and greater elements in three consecutive runs. */
  ghost predicate ThreeWay<T>(s: seq<T>, cmp: (T, T) -> int, lo: nat, hi: nat, less: nat, greater: nat, v: T) {
    && lo + less + greater < hi <= |s|
    && (forall i :: lo <= i < lo + less ==> cmp(s[i], v) < 0)
    && (forall i :: lo + less <= i < hi - greater ==> cmp(s[i], v) == 0)
    && (forall i :: hi - greater <= i < hi ==> cmp(s[i], v) > 0)
  }

  lemma ExchangeLow<T>(s: seq<T>, t: seq<T>, cmp: (T, T) -> int, lo: nat, pa: nat, pb: nat, r: nat, v: T)
    requires lo <= pa <= pb <= |s| && r == Min(pa - lo, pb - pa) && Exchanged(s, t, lo, pb - r, r)
    requires forall i :: lo <= i < pa ==> cmp(s[i], v) == 0
    requires forall i :: pa <= i < pb ==> cmp(s[i], v) < 0
    ensures forall i :: lo <= i < lo + (pb - pa) ==> cmp(t[i], v) < 0
    ensures forall i :: lo + (pb - pa) <= i < pb ==> cmp(t[i], v) == 0
    ensures forall i :: pb <= i < |s| ==> t[i] == s[i]
  {
    forall i | lo <= i < |s|
      ensures if i < lo + (pb - pa) then cmp(t[i], v) < 0 else if i < pb then cmp(t[i], v) == 0 else t[i] == s[i]
    {
      assert ExchangedAt(s, t, lo, pb - r, r, i);
    }
  }

  lemma ExchangeHigh<T>(s: seq<T>, t: seq<T>, cmp: (T, T) -> int, pb: nat, pd: int, hi: nat, r: nat, v: T)
    requires pb <= pd + 1 <= hi <= |s| && r == Min(pd + 1 - pb, hi - pd - 1) && Exchanged(s, t, pb, hi - r, r)
    requires forall i :: pb <= i <= pd ==> cmp(s[i], v) > 0
    requires forall i :: pd < i < hi ==> cmp(s[i], v) == 0
    ensures forall i :: pb <= i < hi - (pd + 1 - pb) ==> cmp(t[i], v) == 0
    ensures forall i :: hi - (pd + 1 - pb) <= i < hi ==> cmp(t[i], v) > 0
    ensures forall i :: 0 <= i < pb ==> t[i] == s[i]
  {
    forall i | 0 <= i < hi
      ensures if i < pb then t[i] == s[i] else if i < hi - (pd + 1 - pb) then cmp(t[i], v) == 0 else cmp(t[i], v) > 0
    {
      assert ExchangedAt(s, t, pb, hi - r, r, i);
    }
  }

  function Min(x: nat, y: nat): nat { if x < y then x else y }

  /** The two exchanges bring the equal elements to the middle. */
  lemma BandsRegrouped<T>(s: seq<T>, t: seq<T>, u: seq<T>, cmp: (T, T) -> int, lo: nat, hi: nat, pa: nat, pb: nat,
      pc: int, pd: int, r: nat, r': nat)
    requires Bands(s, cmp, lo, hi, pa, pb, pc, pd) && pb == pc + 1
    requires r == Min(pa - lo, pb - pa) && Exchanged(s, t, lo, pb - r, r)
    requires r' == Min(pd - pc, hi - pd - 1) && Exchanged(t, u, pb, hi - r', r')
    ensures ThreeWay(u, cmp, lo, hi, pb - pa, pd - pc, s[lo])
  {
    ExchangeLow(s, t, cmp, lo, pa, pb, r, s[lo]);
    ExchangeHigh(t, u, cmp, pb, pd, hi, r', s[lo]);
  }

  /** The two vecswaps after the scans. */
  method Regroup<T(!new)>(a: array<T>, cmp: (T, T) -> int, lo: nat, hi: nat, pa: nat, pb: nat, pc: int, pd: int)
    requires hi <= a.Length && Bands(a[..], cmp, lo, hi, pa, pb, pc, pd) && pb == pc + 1
    modifies a
    ensures Rearranged(old(a[..]), a[..], lo, hi)
    ensures ThreeWay(a[..], cmp, lo, hi, pb - pa, pd - pc, old(a[lo]))
  {
    var r := Min(pa - lo, pb - pa);
    VecSwap(a, lo, pb - r, r, lo, hi);
    ghost var t := a[..];
    var r' := Min(pd - pc, hi - pd - 1);
    VecSwap(a, pb, hi - r', r', lo, hi);
    RearrangedTransitive(old(a[..]), t, a[..], lo, hi);
    BandsRegrouped(old(a[..]), t, a[..], cmp, lo, hi, pa, pb, pc, pd, r, r');
  }

  // ---------------------------------------------------------------- the range that must be sorted

  /** Every pair of [lo, hi) with one position in l..r is in order: the range is sorted, what
      precedes it is not greater and what follows it is not smaller. */
  ghost predicate PartlySorted<T>(s: seq<T>, cmp: (T, T) -> int, lo: nat, hi: nat, l: int, r: int) {
    && hi <= |s|
    && forall i, j {:trigger Le(cmp, s[i], s[j])} ::
      lo <= i < j < hi && (l <= i <= r || l <= j <= r) ==> Le(cmp, s[i], s[j])
  }

  lemma SortedIsPartly<T>(s: seq<T>, cmp: (T, T) -> int, lo: nat, hi: nat, l: int, r: int)
    requires Sorted(s, cmp, lo, hi)
    ensures PartlySorted(s, cmp, lo, hi, l, r)
  {
  }

  /** Rearranging the smaller or the greater elements among themselves keeps the three runs. */
  lemma ThreeWayKept<T>(s: seq<T>, t: seq<T>, cmp: (T, T) -> int, lo: nat, hi: nat, less: nat, greater: nat, v: T,
      from: nat, to: nat)
    requires ThreeWay(s, cmp, lo, hi, less, greater, v) && Rearranged(s, t, from, to)
    requires (from == lo && to == lo + less) || (from == hi - greater && to == hi)
    ensures ThreeWay(t, cmp, lo, hi, less, greater, v)
  {
    forall i | lo <= i < hi
      ensures if i < lo + less then cmp(t[i], v) < 0 else if i < hi - greater then cmp(t[i], v) == 0
        else cmp(t[i], v) > 0
    {
      if from <= i < to {
        RearrangedSource(s, t, from, to, i);
        var j :| from <= j < to && s[j] == t[i];
      } else if i < from {
        assert t[i] == t[..from][i] == s[..from][i] == s[i];
      } else {
        assert t[i] == t[to..][i - to] == s[to..][i - to] == s[i];
      }
    }
  }

  lemma ThreeWayTwice<T>(s0: seq<T>, s1: seq<T>, s2: seq<T>, cmp: (T, T) -> int, lo: nat, hi: nat, less: nat,
      greater: nat, v: T)
    requires ThreeWay(s0, cmp, lo, hi, less, greater, v)
    requires Rearranged(s0, s1, lo, lo + less) && Rearranged(s1, s2, hi - greater, hi)
    ensures ThreeWay(s2, cmp, lo, hi, less, greater, v)
  {
    ThreeWayKept(s0, s1, cmp, lo, hi, less, greater, v, lo, lo + less);
    ThreeWayKept(s1, s2, cmp, lo, hi, less, greater, v, hi - greater, hi);
  }

  /** A part that was skipped has at most one element or none in the range. */
  lemma Skipped<T>(s: seq<T>, cmp: (T, T) -> int, lo: nat, hi: nat, l: int, r: int)
    requires hi <= |s| && (hi <= lo + 1 || r < lo || l > hi - 1)
    ensures PartlySorted(s, cmp, lo, hi, l, r)
  {
  }

  lemma PartlySortedFrame<T>(s: seq<T>, t: seq<T>, cmp: (T, T) -> int, lo: nat, hi: nat, l: int, r: int, from: nat,
      to: nat)
    requires PartlySorted(s, cmp, lo, hi, l, r) && Rearranged(s, t, from, to) && hi <= from
    ensures PartlySorted(t, cmp, lo, hi, l, r)
  {
    forall i | lo <= i < hi ensures t[i] == s[i] {
      assert t[i] == t[..from][i] == s[..from][i];
    }
  }

  lemma Combine<T(!new)>(s: seq<T>, cmp: (T, T) -> int, lo: nat, hi: nat, less: nat, greater: nat, v: T, l: int, r: int)
    requires TotalPreorder(cmp) && ThreeWay(s, cmp, lo, hi, less, greater, v)
    requires PartlySorted(s, cmp, lo, lo + less, l, r) && PartlySorted(s, cmp, hi - greater, hi, l, r)
    ensures PartlySorted(s, cmp, lo, hi, l, r)
  {
    forall i, j | lo <= i < j < hi && (l <= i <= r || l <= j <= r) ensures Le(cmp, s[i], s[j]) {
      if j < lo + less || i >= hi - greater {
      } else {
        assert cmp(s[i], v) <= 0 && cmp(s[j], v) >= 0;
        assert cmp(v, s[j]) <= 0;
        assert Chain(cmp, s[i], v, s[j]);
      }
    }
  }

  // ---------------------------------------------------------------- _pqsort

  /** The pivot: the middle, the median of three, or the median of three medians. */
  method Pivot<T(!new)>(a: array<T>, cmp: (T, T) -> int, lo: nat, n: nat) returns (pm: nat)
    requires n >= 7 && lo + n <= a.Length
    ensures lo <= pm < lo + n
  {
    pm := lo + n / 2;
    if n > 7 {
      var pl, pn := lo, lo + (n - 1);
      if n > 40 {
        var d := n / 8;
        pl := Med3(a[..], cmp, pl, pl + d, pl + 2 * d);
        pm := Med3(a[..], cmp, pm - d, pm, pm + d);
        pn := Med3(a[..], cmp, pn - 2 * d, pn - d, pn);
      }
      pm := Med3(a[..], cmp, pl, pm, pn);
    }
  }

  /** Choose a pivot and partition [lo, lo + n); `moved` tells whether the scans swapped. */
  method Partition<T(!new)>(a: array<T>, cmp: (T, T) -> int, lo: nat, n: nat)
    returns (less: nat, greater: nat, moved: bool, ghost v: T)
    requires TotalPreorder(cmp) && n >= 7 && lo + n <= a.Length
    modifies a
    ensures Rearranged(old(a[..]), a[..], lo, lo + n)
    ensures moved ==> ThreeWay(a[..], cmp, lo, lo + n, less, greater, v)
  {
    var pm := Pivot(a, cmp, lo, n);
    SwapRearranges(a[..], lo, pm, lo, lo + n);
    Swap(a, lo, pm);
    ghost var s := a[..];
    var pa, pb, pc, pd;
    pa, pb, pc, pd, moved := Scan(a, cmp, lo, lo + n);
    RearrangedTransitive(old(a[..]), s, a[..], lo, lo + n);
    v := a[lo];
    less, greater := pb - pa, pd - pc;
    if moved {
      s := a[..];
      Regroup(a, cmp, lo, lo + n, pa, pb, pc, pd);
      RearrangedTransitive(old(a[..]), s, a[..], lo, lo + n);
    }
  }

  /** _pqsort; the jump back to the start for the greater elements is the second call. */
  method SortRange<T(!new)>(a: array<T>, cmp: (T, T) -> int, lo: nat, n: nat, l: int, r: int)
    requires TotalPreorder(cmp) && lo + n <= a.Length && l <= r
    modifies a
    ensures Rearranged(old(a[..]), a[..], lo, lo + n)
    ensures PartlySorted(a[..], cmp, lo, lo + n, l, r)
    decreases n
  {
    if n < 7 {
      InsertionSort(a, cmp, lo, n);
      SortedIsPartly(a[..], cmp, lo, lo + n, l, r);
      return;
    }
    var less, greater, moved;
    ghost var v;
    less, greater, moved, v := Partition(a, cmp, lo, n);
    ghost var s := a[..];
    if !moved {
      InsertionSort(a, cmp, lo, n);
      RearrangedTransitive(old(a[..]), s, a[..], lo, lo + n);
      SortedIsPartly(a[..], cmp, lo, lo + n, l, r);
      return;
    }
    SortParts(a, cmp, lo, n, less, greater, v, l, r);
    RearrangedTransitive(old(a[..]), s, a[..], lo, lo + n);
  }

  method SortParts<T(!new)>(a: array<T>, cmp: (T, T) -> int, lo: nat, n: nat, less: nat, greater: nat, ghost v: T,
      l: int, r: int)
    requires TotalPreorder(cmp) && lo + n <= a.Length && l <= r
    requires ThreeWay(a[..], cmp, lo, lo + n, less, greater, v)
    modifies a
    ensures Rearranged(old(a[..]), a[..], lo, lo + n)
    ensures PartlySorted(a[..], cmp, lo, lo + n, l, r)
    decreases n, 0
  {
    var hi := lo + n;
    SortPart(a, cmp, lo, less, l, r, lo, hi);
    ghost var s := a[..];
    SortPart(a, cmp, hi - greater, greater, l, r, lo, hi);
    BothParts(old(a[..]), s, a[..], cmp, lo, hi, less, greater, v, l, r);
  }

  /** Sorting the smaller and then the greater elements as far as the range needs it sorts the
      whole as far as the range needs it. */
  lemma BothParts<T(!new)>(s0: seq<T>, s1: seq<T>, s2: seq<T>, cmp: (T, T) -> int, lo: nat, hi: nat, less: nat,
      greater: nat, v: T, l: int, r: int)
    requires TotalPreorder(cmp) && ThreeWay(s0, cmp, lo, hi, less, greater, v)
    requires Rearranged(s0, s1, lo, lo + less) && PartlySorted(s1, cmp, lo, lo + less, l, r)
    requires Rearranged(s1, s2, hi - greater, hi) && PartlySorted(s2, cmp, hi - greater, hi, l, r)
    ensures Rearranged(s0, s2, lo, hi) && PartlySorted(s2, cmp, lo, hi, l, r)
  {
    ThreeWayTwice(s0, s1, s2, cmp, lo, hi, less, greater, v);
    PartlySortedFrame(s1, s2, cmp, lo, lo + less, l, r, hi - greater, hi);
    RearrangedWiden(s0, s1, lo, lo + less, lo, hi);
    RearrangedWiden(s1, s2, hi - greater, hi, lo, hi);
    RearrangedTransitive(s0, s1, s2, lo, hi);
    Combine(s2, cmp, lo, hi, less, greater, v, l, r);
  }

  /** Sort one part when it has more than one element and meets the range. */
  method SortPart<T(!new)>(a: array<T>, cmp: (T, T) -> int, from: nat, count: nat, l: int, r: int, ghost lo: nat,
      ghost hi: nat)
    requires TotalPreorder(cmp) && lo <= from && from + count <= hi <= a.Length && l <= r && count < hi - lo
    modifies a
    ensures Rearranged(old(a[..]), a[..], from, from + count)
    ensures PartlySorted(a[..], cmp, from, from + count, l, r)
    decreases hi - lo, 0, 0
  {
    var first, last := from, from + count - 1;
    if count > 1 && !((l < first && r < first) || (l > last && r > last)) {
      SortRange(a, cmp, from, count, l, r);
    } else {
      Skipped(a[..], cmp, from, from + count, l, r);
    }
  }

  /** pqsort: the positions lrange..rrange end up holding what a full sort would put there. */
  method PartialSort<T(!new)>(a: array<T>, cmp: (T, T) -> int, lrange: nat, rrange: nat)
    requires TotalPreorder(cmp) && lrange <= rrange < a.Length
    modifies a
    ensures multiset(a[..]) == multiset(old(a[..]))
    ensures Sorted(a[..], cmp, lrange, rrange + 1)
    ensures forall i, j :: 0 <= i < lrange <= j <= rrange ==> Le(cmp, a[i], a[j])
    ensures forall i, j :: lrange <= i <= rrange < j < a.Length ==> Le(cmp, a[i], a[j])
  {
    SortRange(a, cmp, 0, a.Length, lrange, rrange);
    assert a[..] == a[0..a.Length] && old(a[..]) == old(a[0..a.Length]);
  }
}
