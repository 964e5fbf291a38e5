/**
 Cluster chains: what following the entries of a file allocation table from a start cluster can
 lead to, and how chains change when entries are written. The table is a sequence with one entry
 for each cluster number.
 */
module FatChain {
  import opened Base
  import opened FatTable

  type Fat = seq<nat>

  function EocMarker(t: FatType): nat {
    match t
    case Fat12 => 0xFFF
    case Fat16 => 0xFFFF
    case Fat32 => 0xFFF_FFFF
  }

  // `is_eoc`, for entries as they are read.
  predicate IsEoc(t: FatType, v: nat) {
    match t
    case Fat12 => v >= 0xFF8
    case Fat16 => v >= 0xFFF8
    case Fat32 => v % 0x1000_0000 >= 0xFFF_FFF8
  }

  /** The end mark is the largest value an entry can hold, and the eight largest values end a chain. */
  lemma EndMarks(t: FatType, v: nat)
    ensures Masked(t, v) <= EocMarker(t) == Masked(t, EocMarker(t))
    ensures v <= EocMarker(t) ==> (IsEoc(t, v) <==> v + 8 > EocMarker(t))
    ensures t == Fat32 ==> (IsEoc(t, v) <==> IsEoc(t, v % 0x1000_0000))
  {
  }

  // Cluster numbers start at 2.
  predicate InRange(fat: Fat, c: nat) {
    2 <= c < |fat|
  }

  // The cluster after c on a walk, if the walk goes on.
  function Follow(t: FatType, fat: Fat, c: nat): Option<nat>
    requires InRange(fat, c)
  {
    var next := fat[c];
    if next < 2 || IsEoc(t, next) || next >= |fat| then None else Some(next)
  }

  ghost predicate IsWalk(t: FatType, fat: Fat, start: nat, ch: seq<nat>) {
    && (ch != [] ==> ch[0] == start)
    && (forall i :: 0 <= i < |ch| ==> InRange(fat, ch[i]))
    && (forall i :: 0 <= i < |ch| - 1 ==> Follow(t, fat, ch[i]) == Some(ch[i + 1]))
  }

  // The walk cannot be continued.
  ghost predicate IsWhole(t: FatType, fat: Fat, start: nat, ch: seq<nat>) {
    && IsWalk(t, fat, start, ch)
    && if ch == [] then !InRange(fat, start) else Follow(t, fat, ch[|ch| - 1]) == None
  }

  // Some cluster is met twice.
  ghost predicate Cycles(t: FatType, fat: Fat, start: nat) {
    exists ch :: IsWalk(t, fat, start, ch) && !Distinct(ch)
  }

  // ---------------------------------------------------------------- walks

  // A walk never branches.
  lemma {:induction false} WalksAgree(t: FatType, fat: Fat, start: nat, a: seq<nat>, b: seq<nat>, i: nat)
    requires IsWalk(t, fat, start, a) && IsWalk(t, fat, start, b) && i < |a| && i < |b|
    ensures a[i] == b[i]
    decreases i
  {
    if i > 0 {
      WalksAgree(t, fat, start, a, b, i - 1);
      assert Follow(t, fat, a[i - 1]) == Some(a[i]) && Follow(t, fat, b[i - 1]) == Some(b[i]);
    }
  }

  // A repeated cluster repeats what follows it.
  lemma {:induction false} RepeatShifts(t: FatType, fat: Fat, start: nat, ch: seq<nat>, i: nat, j: nat, k: nat)
    requires IsWalk(t, fat, start, ch) && i < j && j + k < |ch| && ch[i] == ch[j]
    ensures ch[i + k] == ch[j + k]
    decreases k
  {
    if k > 0 {
      RepeatShifts(t, fat, start, ch, i, j, k - 1);
      assert Follow(t, fat, ch[i + k - 1]) == Some(ch[i + k - 1 + 1]);
      assert Follow(t, fat, ch[j + k - 1]) == Some(ch[j + k - 1 + 1]);
    }
  }

  // A walk that ends meets no cluster twice.
  lemma WholeIsDistinct(t: FatType, fat: Fat, start: nat, ch: seq<nat>)
    requires IsWhole(t, fat, start, ch)
    ensures Distinct(ch)
  {
    forall i, j | 0 <= i < j < |ch| ensures ch[i] != ch[j] {
      var k := |ch| - 1 - j;
      assert Follow(t, fat, ch[i + k]) == Some(ch[i + k + 1]);
      if ch[i] == ch[j] {
        RepeatShifts(t, fat, start, ch, i, j, k);
        assert false;
      }
    }
  }

  // Then no walk from the same start does.
  lemma WholeMeansNoCycle(t: FatType, fat: Fat, start: nat, ch: seq<nat>)
    requires IsWhole(t, fat, start, ch)
    ensures !Cycles(t, fat, start)
  {
    WholeIsDistinct(t, fat, start, ch);
    forall a | IsWalk(t, fat, start, a) ensures Distinct(a) {
      if |a| > |ch| {
        WalkEndsHere(t, fat, start, ch, a);
        assert false;
      }
      forall i, j | 0 <= i < j < |a| ensures a[i] != a[j] {
        WalksAgree(t, fat, start, a, ch, i);
        WalksAgree(t, fat, start, a, ch, j);
      }
    }
  }

  lemma WalkEndsHere(t: FatType, fat: Fat, start: nat, ch: seq<nat>, a: seq<nat>)
    requires IsWhole(t, fat, start, ch) && IsWalk(t, fat, start, a)
    ensures |a| <= |ch|
  {
    assert 0 < |ch| < |a| ==> Follow(t, fat, a[|ch| - 1]) == Some(a[|ch| - 1 + 1]);
    if 0 < |ch| <= |a| {
      WalksAgree(t, fat, start, a, ch, |ch| - 1);
    }
  }

  // ---------------------------------------------------------------- counting clusters

  function Numbers(n: nat): (s: set<nat>)
    ensures |s| == if n < 2 then 0 else n - 2
    ensures forall x: nat :: x in s <==> 2 <= x < n
  {
    if n <= 2 then {} else Numbers(n - 1) + {n - 1}
  }

  lemma {:induction false} DistinctSize(ch: seq<nat>)
    requires Distinct(ch)
    ensures |Elements(ch)| == |ch|
    decreases |ch|
  {
    if ch == [] {
      assert Elements(ch) == {};
    } else {
      var front, last := ch[..|ch| - 1], ch[|ch| - 1];
      DistinctSize(front);
      assert last !in front;
      assert Elements(ch) == Elements(front) + {last};
    }
  }

  lemma SubsetSize(a: set<nat>, b: set<nat>)
    requires a <= b
    ensures |a| <= |b|
  {
    if x :| x in a {
      SubsetSize(a - {x}, b - {x});
    }
  }

  // Distinct cluster numbers are no more than there are clusters.
  lemma Pigeonhole(fat: Fat, ch: seq<nat>)
    requires Distinct(ch) && forall i :: 0 <= i < |ch| ==> InRange(fat, ch[i])
    ensures |ch| <= if |fat| < 2 then 0 else |fat| - 2
  {
    DistinctSize(ch);
    SubsetSize(Elements(ch), Numbers(|fat|));
  }

  // ---------------------------------------------------------------- chains

  // A well-formed chain: a walk that ends in an end-of-chain mark.
  ghost predicate IsChain(t: FatType, fat: Fat, ch: seq<nat>) {
    && ch != [] && IsWalk(t, fat, ch[0], ch)
    && IsEoc(t, fat[ch[|ch| - 1]])
  }

  // Cluster numbers are told apart from the reserved values.
  predicate Numbered(t: FatType, fat: Fat) {
    |fat| <= match t case Fat12 => 0xFF7 case Fat16 => 0xFFF7 case Fat32 => 0xFFF_FFF7
  }

  lemma ChainIsWhole(t: FatType, fat: Fat, ch: seq<nat>)
    requires IsChain(t, fat, ch)
    ensures IsWhole(t, fat, ch[0], ch) && Distinct(ch)
  {
    WholeIsDistinct(t, fat, ch[0], ch);
  }

  // No cluster of a chain is free.
  lemma ChainIsNotFree(t: FatType, fat: Fat, ch: seq<nat>, c: nat)
    requires IsChain(t, fat, ch) && c in ch
    ensures InRange(fat, c) && fat[c] != 0
  {
    var i :| 0 <= i < |ch| && ch[i] == c;
    if i < |ch| - 1 {
      assert Follow(t, fat, ch[i]) == Some(ch[i + 1]);
    }
  }

  // A write outside a chain leaves the chain as it is.
  lemma ChainUntouched(t: FatType, fat: Fat, ch: seq<nat>, c: nat, v: nat)
    requires IsChain(t, fat, ch) && c !in ch && c < |fat|
    ensures IsChain(t, fat[c := v], ch)
  {
    var fat' := fat[c := v];
    assert forall i :: 0 <= i < |ch| ==> ch[i] in ch && fat'[ch[i]] == fat[ch[i]];
    assert forall i :: 0 <= i < |ch| - 1 ==> Follow(t, fat', ch[i]) == Follow(t, fat, ch[i]);
  }

  // A free cluster marked as the end is a chain by itself.
  lemma ChainOfOne(t: FatType, fat: Fat, n: nat)
    requires InRange(fat, n) && Numbered(t, fat)
    ensures IsChain(t, fat[n := EocMarker(t)], [n])
  {
  }

  // Linking a chain's last cluster to a fresh end lengthens the chain by it.
  lemma ChainLonger(t: FatType, fat: Fat, ch: seq<nat>, n: nat)
    requires IsChain(t, fat, ch) && InRange(fat, n) && n !in ch && Numbered(t, fat)
    ensures IsChain(t, fat[n := EocMarker(t)][ch[|ch| - 1] := n], ch + [n])
  {
    ChainIsWhole(t, fat, ch);
    var last := ch[|ch| - 1];
    var fat' := fat[n := EocMarker(t)][last := n];
    var longer := ch + [n];
    assert !IsEoc(t, n);
    forall i | 0 <= i < |longer| - 1 ensures Follow(t, fat', longer[i]) == Some(longer[i + 1]) {
      if i < |ch| - 1 {
        assert ch[i] in ch && ch[i] != last;
        assert Follow(t, fat, ch[i]) == Some(ch[i + 1]);
      }
    }
  }

  // ---------------------------------------------------------------- free clusters

  ghost function FreeClusters(fat: Fat): set<nat> {
    set c: nat | 2 <= c < |fat| && fat[c] == 0
  }

  lemma FreeAfterUse(fat: Fat, c: nat, v: nat)
    requires InRange(fat, c) && fat[c] == 0 && v != 0
    ensures FreeClusters(fat[c := v]) == FreeClusters(fat) - {c}
    ensures |FreeClusters(fat[c := v])| == |FreeClusters(fat)| - 1
  {
    assert FreeClusters(fat[c := v]) == FreeClusters(fat) - {c};
  }

  lemma FreeUnchanged(fat: Fat, c: nat, v: nat)
    requires c < |fat| && fat[c] != 0 && v != 0
    ensures FreeClusters(fat[c := v]) == FreeClusters(fat)
  {
  }
}
