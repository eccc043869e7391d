/** The draw engine and the group entity ("trekking", Dutch for "draw"): a named roster
    of people, a flag that records whether the draw has happened, and, once it has, the
    mapping that gives every roster position the person it draws. */
module Lootjestrekken {
  import opened Errors

  /** Width to which `GetInfo` pads the name of a drawn trekking. */
  const InfoWidth := 30

  /** What `GetInfo` appends to the name of a drawn trekking. */
  const DrawnSuffix := " getrokken"

  // ---------------------------------------------------------------------------
  // Sequence helpers
  // ---------------------------------------------------------------------------

  ghost predicate Distinct<T>(s: seq<T>) {
    forall a, b :: 0 <= a < b < |s| ==> s[a] != s[b]
  }

  /** A roster with the same names as a roster without repeats has no repeats either. */
  lemma DistinctByMultiset<T>(a: seq<T>, b: seq<T>)
    requires multiset(a) == multiset(b) && Distinct(a)
    ensures Distinct(b)
  {
    forall i, j | 0 <= i < j < |b|
      ensures b[i] != b[j]
    {
      if b[i] == b[j] {
        TwoCopies(b, i, j);
        AtMostOneCopy(a, b[i]);
        assert false;
      }
    }
  }

  /** A roster without repeats holds each name at most once. */
  lemma {:induction false} AtMostOneCopy<T>(s: seq<T>, v: T)
    requires Distinct(s)
    ensures multiset(s)[v] <= 1
  {
    if |s| > 0 {
      assert s == [s[0]] + s[1..];
      AtMostOneCopy(s[1..], v);
      if s[0] == v {
        assert v !in s[1..];
      }
    }
  }

  /** Two equal entries at different positions are two copies in the multiset. */
  lemma TwoCopies<T>(s: seq<T>, i: nat, j: nat)
    requires i < j < |s| && s[i] == s[j]
    ensures multiset(s)[s[i]] >= 2
  {
    assert s == s[..j] + s[j..];
    assert s[i] in s[..j] && s[j] in s[j..];
  }

  /** Position of the first occurrence of `x` in `s`, or `|s|` when there is none:
      the index at which the source's `for index, i := range` searches stop. */
  function FirstIndex<T(==)>(s: seq<T>, x: T): (k: nat)
    ensures k <= |s|
    ensures k < |s| ==> s[k] == x
    ensures forall j :: 0 <= j < k ==> s[j] != x
    ensures k == |s| <==> x !in s
  {
    if |s| == 0 then 0
    else if s[0] == x then 0
    else 1 + FirstIndex(s[1..], x)
  }

  // ---------------------------------------------------------------------------
  // lpad
  // ---------------------------------------------------------------------------

  /** `pad` written `n` times in a row: `n` copies' worth of characters, starting with
      `pad` and repeating with period |pad|, so every copy is `pad`. */
  function Repeat(pad: string, n: nat): (r: string)
    ensures |r| == |pad| * n
    ensures 0 < n ==> |pad| <= |r| && r[..|pad|] == pad
    ensures forall k :: 0 <= k < |r| - |pad| ==> r[k] == r[k + |pad|]
    ensures forall k :: 0 <= k < |r| ==> r[k] in pad
  {
    if n == 0 then "" else pad + Repeat(pad, n - 1)
  }

  /** Number of iterations of lpad's loop, which counts from |s| up to plength. */
  function PadCount(s: string, plength: int): nat {
    if |s| < plength then plength - |s| else 0
  }

  /** The value `lpad` returns: `s` itself when it is at least `plength` long, and
      otherwise `s` behind one copy of `pad` per missing position. */
  function PadLeft(s: string, pad: string, plength: int): (r: string)
    ensures plength <= |s| ==> r == s
    ensures |s| <= |r| && r[|r| - |s|..] == s
    ensures |r| == |s| + |pad| * PadCount(s, plength)
    ensures 0 < PadCount(s, plength) ==> |pad| <= |r| && r[..|pad|] == pad
    ensures forall k :: 0 <= k < |r| - |s| - |pad| ==> r[k] == r[k + |pad|]
    ensures forall k :: 0 <= k < |r| - |s| ==> r[k] in pad
    ensures |pad| == 1 ==> |r| == if |s| < plength then plength else |s|
  {
    Repeat(pad, PadCount(s, plength)) + s
  }

  /** lpad: prepends `pad` once for every count from |s| up to `plength`. */
  method Lpad(s: string, pad: string, plength: int) returns (r: string)
    ensures r == PadLeft(s, pad, plength)
  {
    r := s;
    var i := |s|;
    while i < plength
      invariant |s| <= i
      invariant i <= plength || i == |s|
      invariant r == Repeat(pad, i - |s|) + s
    {
      r := pad + r;
      i := i + 1;
    }
  }

  // ---------------------------------------------------------------------------
  // Derangement
  // ---------------------------------------------------------------------------

  /** `sigma` is a permutation of the positions 0 .. n-1. */
  ghost predicate IsIndexPermutation(sigma: seq<nat>, n: nat) {
    && |sigma| == n
    && (forall k :: 0 <= k < n ==> sigma[k] < n)
    && (forall a, b :: 0 <= a < b < n ==> sigma[a] != sigma[b])
  }

  /** `r` is `arr` rearranged by `sigma`: position k of `r` holds what position sigma[k] of `arr` held. */
  ghost predicate Rearranges(arr: seq<string>, r: seq<string>, sigma: seq<nat>) {
    && |r| == |arr|
    && IsIndexPermutation(sigma, |arr|)
    && (forall k :: 0 <= k < |arr| ==> r[k] == arr[sigma[k]])
  }

  /** No position is mapped to itself. */
  ghost predicate FixedPointFree(sigma: seq<nat>) {
    forall k :: 0 <= k < |sigma| ==> sigma[k] != k
  }

  /** Everything `Derange` promises about its result `r` and the positions `sigma` it
      moved the input by: a rearrangement with the same multiset that leaves no position
      in place when there are at least two, and an unchanged copy otherwise. */
  ghost predicate Deranges(arr: seq<string>, r: seq<string>, sigma: seq<nat>) {
    && Rearranges(arr, r, sigma)
    && multiset(r) == multiset(arr)
    && (2 <= |arr| ==> FixedPointFree(sigma))
    && (|arr| < 2 ==> r == arr)
  }

  ghost function Identity(n: nat): (sigma: seq<nat>)
    ensures |sigma| == n && forall k :: 0 <= k < n ==> sigma[k] == k
  {
    if n == 0 then [] else Identity(n - 1) + [n - 1]
  }

  /** The state of Sattolo's loop before it handles position `i` (`i` is -1 for an
      empty input): `sigma` is a permutation; each position after `i` is final and holds
      an element from elsewhere; each open position holds its own element or one from
      beyond `i`; and once a swap has happened, the open position `carrier` holds one
      from beyond `i`. */
  ghost predicate SattoloInvariant(sigma: seq<nat>, n: nat, i: int, carrier: nat) {
    && -1 <= i < n
    && IsIndexPermutation(sigma, n)
    && (forall k :: i < k < n ==> sigma[k] != k)
    && (forall k :: 0 <= k <= i && sigma[k] <= i ==> sigma[k] == k)
    && (i < n - 1 ==> carrier <= i && sigma[carrier] > i)
  }

  /** Before the first iteration nothing has moved. */
  lemma SattoloStart(arr: seq<string>)
    ensures SattoloInvariant(Identity(|arr|), |arr|, |arr| - 1, 0)
    ensures Rearranges(arr, arr, Identity(|arr|))
  {
  }

  /** A rearrangement of fewer than two elements is the identity. */
  lemma ShortRearrangement(arr: seq<string>, r: seq<string>, sigma: seq<nat>)
    requires |arr| < 2 && Rearranges(arr, r, sigma)
    ensures r == arr
  {
  }

  /** Swapping `i` with any `j < i` finalises position `i` and keeps the invariant. */
  lemma SattoloStep(sigma: seq<nat>, n: nat, i: int, carrier: nat, j: nat)
    requires SattoloInvariant(sigma, n, i, carrier)
    requires 0 <= j < i
    ensures SattoloInvariant(sigma[i := sigma[j]][j := sigma[i]], n, i - 1, j)
  {
    var next := sigma[i := sigma[j]][j := sigma[i]];
    forall a, b | 0 <= a < b < n
      ensures next[a] != next[b]
    {
      assert sigma[a] != sigma[b];
    }
  }

  /** When the loop stops after at least one swap, no position keeps its element. */
  lemma SattoloDone(sigma: seq<nat>, n: nat, carrier: nat)
    requires 2 <= n && SattoloInvariant(sigma, n, 0, carrier)
    ensures FixedPointFree(sigma)
  {
  }

  /** Swapping two positions of the result and of the index map together keeps the
      rearrangement and the multiset. */
  lemma SwapKeepsRearrangement(arr: seq<string>, s: seq<string>, sigma: seq<nat>, i: nat, j: nat)
    requires Rearranges(arr, s, sigma) && multiset(s) == multiset(arr)
    requires i < |s| && j < |s|
    ensures Rearranges(arr, s[i := s[j]][j := s[i]], sigma[i := sigma[j]][j := sigma[i]])
    ensures multiset(s[i := s[j]][j := s[i]]) == multiset(arr)
  {
    var next := sigma[i := sigma[j]][j := sigma[i]];
    forall a, b | 0 <= a < b < |arr|
      ensures next[a] != next[b]
    {
      assert sigma[a] != sigma[b];
    }
  }

  /** Sattolo's algorithm on a copy of `arr`: for i from the last position down to 1,
      swap position i with a position j drawn from [0, i). The random draw is a
      nondeterministic choice, so every possible sequence of draws is covered. */
  method Derange(arr: seq<string>) returns (r: seq<string>, ghost sigma: seq<nat>)
    ensures |r| == |arr|
    ensures multiset(r) == multiset(arr)
    ensures IsIndexPermutation(sigma, |arr|)
    ensures forall k :: 0 <= k < |arr| ==> r[k] == arr[sigma[k]]
    ensures 2 <= |arr| ==> forall k :: 0 <= k < |arr| ==> sigma[k] != k
    ensures |arr| < 2 ==> r == arr
  {
    var n := |arr|;
    var newarr := new string[n](k => if 0 <= k < n then arr[k] else "");
    // the array's contents, as a value
    ghost var cur := arr;
    assert newarr[..] == cur;
    sigma := Identity(n);
    SattoloStart(arr);
    ghost var carrier := 0;
    var i := n - 1;
    while i >= 1
      invariant newarr[..] == cur
      invariant SattoloInvariant(sigma, n, i, carrier)
      invariant n < 2 ==> i == n - 1
      invariant Rearranges(arr, cur, sigma) && multiset(cur) == multiset(arr)
    {
      var j :| 0 <= j < i;
      newarr[i], newarr[j] := newarr[j], newarr[i];
      SwapKeepsRearrangement(arr, cur, sigma, i, j);
      SattoloStep(sigma, n, i, carrier, j);
      cur := cur[i := cur[j]][j := cur[i]];
      sigma := sigma[i := sigma[j]][j := sigma[i]];
      carrier := j;
      i := i - 1;
    }
    if 2 <= n {
      SattoloDone(sigma, n, carrier);
    } else {
      ShortRearrangement(arr, cur, sigma);
    }
    r := newarr[..];
  }

  /** rand.Shuffle as the Go library runs it: a Fisher-Yates pass that swaps position i
      with a position drawn from [0, i], in place. */
  method Shuffle(a: array<string>)
    modifies a
    ensures multiset(a[..]) == multiset(old(a[..]))
  {
    var i := a.Length - 1;
    while i >= 1
      invariant -1 <= i < a.Length
      invariant multiset(a[..]) == multiset(old(a[..]))
    {
      var j :| 0 <= j <= i;
      a[i], a[j] := a[j], a[i];
      i := i - 1;
    }
  }

  // ---------------------------------------------------------------------------
  // Roster removal
  // ---------------------------------------------------------------------------

  /** The roster `RemovePerson(x)` leaves: the first occurrence of `x` taken out and
      the rest kept in order; when `x` does not occur, the last entry is dropped. */
  function RemovedFirst(s: seq<string>, x: string): (r: seq<string>)
    requires |s| > 0
    ensures |r| == |s| - 1
    ensures forall m :: 0 <= m < |r| ==> r[m] == if m < FirstIndex(s, x) then s[m] else s[m + 1]
    ensures x in s ==> multiset(r) == multiset(s) - multiset{x}
    ensures x !in s ==> r == s[..|s| - 1]
  {
    var k := FirstIndex(s, x);
    if k < |s| then
      assert s == s[..k] + [s[k]] + s[k + 1..];
      assert multiset(s) == multiset(s[..k]) + multiset{x} + multiset(s[k + 1..]);
      s[..k] + s[k + 1..]
    else
      s[..|s| - 1]
  }

  /** The array of RemovePerson's loop once it has passed position `index - 1`, having
      met the removed entry at `first`: entries before `first` and from `index - 1` on are
      in place, those in between have moved one step to the left. */
  ghost predicate ShiftedUpTo(s: seq<string>, a: seq<string>, first: nat, index: nat) {
    && |a| == |s| && index <= |s|
    && (forall m :: 0 <= m < |s| && (m < first || index - 1 <= m) ==> a[m] == s[m])
    && (forall m :: first <= m < index - 1 ==> a[m] == s[m + 1])
  }

  /** An iteration of RemovePerson's loop that shifts, after the removed entry was met. */
  lemma ShiftStep(s: seq<string>, a: seq<string>, first: nat, index: nat)
    requires ShiftedUpTo(s, a, first, index) && first < index < |s|
    ensures ShiftedUpTo(s, a[index - 1 := a[index]], first, index + 1)
  {
  }

  /** An iteration of RemovePerson's loop that leaves the array alone, up to and
      including the one that meets the removed entry. */
  lemma ShiftWait(s: seq<string>, a: seq<string>, first: nat, index: nat)
    requires ShiftedUpTo(s, a, first, index) && index <= first && index < |s|
    ensures ShiftedUpTo(s, a, first, index + 1)
  {
  }

  /** What RemovePerson's loop leaves in its array, cut short by one, is RemovedFirst. */
  lemma ShiftedIsRemoved(s: seq<string>, a: seq<string>, x: string)
    requires |s| > 0 && ShiftedUpTo(s, a, FirstIndex(s, x), |s|)
    ensures a[..|s| - 1] == RemovedFirst(s, x)
  {
  }

  // ---------------------------------------------------------------------------
  // The group entity
  // ---------------------------------------------------------------------------

  /** A trekking. `people` is the roster; after the draw, `peopleMapping[k]` is the
      person that `people[k]` has drawn. The `gorm.Model` metadata of the Go struct is
      not kept. */
  datatype Trekking = Trekking(people: seq<string>, peopleMapping: seq<string>, getrokken: bool, name: string)

  // The operations below are the methods of `*Trekking`; the receiver is `t`, and an
  // operation that changes it returns the changed copy.

  /** Appends `person` to the roster; nothing else changes. */
  function AddPerson(t: Trekking, person: string): (r: Trekking)
    ensures |r.people| == |t.people| + 1
    ensures r.people[..|t.people|] == t.people && r.people[|t.people|] == person
    ensures r.peopleMapping == t.peopleMapping && r.getrokken == t.getrokken && r.name == t.name
  {
    t.(people := t.people + [person])
  }

  /** The one-line summary: the name alone before the draw; afterwards the name
      left-padded with spaces to 30 characters, followed by " getrokken". */
  function GetInfo(t: Trekking): (r: string)
    ensures !t.getrokken ==> r == t.name
    ensures t.getrokken ==> |r| == (if |t.name| < InfoWidth then InfoWidth else |t.name|) + |DrawnSuffix|
    ensures t.getrokken ==> r[|r| - |DrawnSuffix|..] == DrawnSuffix
    ensures t.getrokken ==> r[|r| - |DrawnSuffix| - |t.name|..|r| - |DrawnSuffix|] == t.name
    ensures t.getrokken ==> forall k :: 0 <= k < |r| - |DrawnSuffix| - |t.name| ==> r[k] == ' '
  {
    if t.getrokken then
      var padded := PadLeft(t.name, " ", InfoWidth);
      assert (padded + DrawnSuffix)[..|padded|] == padded;
      padded + DrawnSuffix
    else
      t.name
  }

  /** Removes the first occurrence of `person` by shifting every later entry one place
      to the left and then cutting off the last slot. Go's slice expression panics on an
      empty roster, hence the precondition. */
  method RemovePerson(t: Trekking, person: string) returns (r: Trekking)
    requires |t.people| > 0
    ensures r == t.(people := RemovedFirst(t.people, person))
  {
    var people := t.people;
    var n := |people|;
    var a := new string[n](k => if 0 <= k < n then people[k] else "");
    ghost var first := FirstIndex(people, person);
    // the array's contents, as a value
    ghost var cur := people;
    assert a[..] == cur;
    var found := false;
    var index := 0;
    while index < n
      invariant 0 <= index <= n
      invariant a[..] == cur
      invariant found <==> first < index
      invariant ShiftedUpTo(people, cur, first, index)
    {
      var i := a[index];
      assert i == people[index];
      if found {
        a[index - 1] := a[index];
        ShiftStep(people, cur, first, index);
        cur := cur[index - 1 := cur[index]];
      } else {
        ShiftWait(people, cur, first, index);
        if i == person {
          found := true;
        }
      }
      index := index + 1;
    }
    ShiftedIsRemoved(people, cur, person);
    r := t.(people := a[..n - 1]);
  }

  /** The draw: marks the trekking drawn, shuffles the roster, and sets the mapping to
      a derangement of the shuffled roster. Nothing stops a second draw: it re-shuffles
      and replaces the earlier mapping. */
  method Trek(t: Trekking) returns (r: Trekking, ghost sigma: seq<nat>)
    ensures r.getrokken && r.name == t.name
    ensures |r.people| == |t.people| && multiset(r.people) == multiset(t.people)
    ensures Distinct(t.people) ==> Distinct(r.people)
    ensures |r.peopleMapping| == |r.people|
    ensures Deranges(r.people, r.peopleMapping, sigma)
  {
    var people := t.people;
    var roster := new string[|people|](k => if 0 <= k < |people| then people[k] else "");
    assert roster[..] == people;
    Shuffle(roster);
    var mapping;
    mapping, sigma := Derange(roster[..]);
    if Distinct(people) {
      DistinctByMultiset(people, roster[..]);
    }
    r := t.(people := roster[..], peopleMapping := mapping, getrokken := true);
  }

  /** The person drawn by `person`: the mapping entry at the first roster position that
      holds `person`, or an error when `person` is not on the roster. Go indexes the
      mapping without a check, so that entry must exist. */
  function GetrokkenPerson(t: Trekking, person: string): (r: (string, Option<Error>))
    requires person in t.people ==> FirstIndex(t.people, person) < |t.peopleMapping|
    ensures person !in t.people ==> r == ("", Some(NotPartOfTrekking))
    ensures forall k :: 0 <= k < |t.people| && t.people[k] == person && (forall j :: 0 <= j < k ==> t.people[j] != person)
              ==> k < |t.peopleMapping| && r == (t.peopleMapping[k], None)
  {
    var k := FirstIndex(t.people, person);
    if k < |t.people| then (t.peopleMapping[k], None) else ("", Some(NotPartOfTrekking))
  }

  /** The zero value `Trekking{}` of Go: nobody on the roster or in the mapping, not
      drawn, no name; so its summary is empty and every lookup fails. */
  function ZeroTrekking(): (z: Trekking)
    ensures z.people == [] && z.peopleMapping == [] && !z.getrokken && z.name == ""
    ensures GetInfo(z) == ""
    ensures forall p :: GetrokkenPerson(z, p) == ("", Some(NotPartOfTrekking))
  {
    Trekking([], [], false, "")
  }
}
