/**
 `memset`, `memcpy`, `memmove` and `memcmp`, over one flat address space: a pointer is an
 index into `ram`, so that source and destination may overlap in every way.
 */
module MemEssentials {
  type Byte = bv8

  // Pointers and sizes are 64 bits wide.
  const ADDRESS_SPACE: int := 0x1_0000_0000_0000_0000
  const HALF_SPACE: int := 0x8000_0000_0000_0000

  /** `n` bytes at `dest` replaced by `b`. */
  function Filled(m: seq<Byte>, dest: nat, n: nat, b: Byte): seq<Byte>
    requires dest + n <= |m|
  {
    m[..dest] + seq(n, _ => b) + m[dest + n..]
  }

  /** `n` bytes at `d` replaced by the old contents of the `n` bytes at `s`. */
  function Moved(m: seq<Byte>, d: nat, s: nat, n: nat): seq<Byte>
    requires d + n <= |m| && s + n <= |m|
  {
    m[..d] + m[s..s + n] + m[d + n..]
  }

  /** A window of a window. */
  lemma SubWindow(m: seq<Byte>, a: nat, n: nat, at: nat, k: nat)
    requires a + n <= |m| && at + k <= n
    ensures m[a..a + n][at..at + k] == m[a + at..a + at + k]
  {
    var outer := m[a..a + n];
    var l, r := outer[at..at + k], m[a + at..a + at + k];
    forall i | 0 <= i < k
      ensures l[i] == r[i]
    {
      assert l[i] == outer[at + i];
    }
  }

  // ---------------------------------------------------------------------
  // memset
  // ---------------------------------------------------------------------

  /** The simple loop that the optimised `memset` replaces. */
  function ByteLoop(m: seq<Byte>, dest: nat, n: nat, b: Byte): seq<Byte>
    requires dest + n <= |m|
    decreases n
  {
    if n == 0 then m else ByteLoop(m[dest := b], dest + 1, n - 1, b)
  }

  lemma {:induction false} ByteLoopFills(m: seq<Byte>, dest: nat, n: nat, b: Byte)
    requires dest + n <= |m|
    ensures ByteLoop(m, dest, n, b) == Filled(m, dest, n, b)
    decreases n
  {
    if n > 0 {
      ByteLoopFills(m[dest := b], dest + 1, n - 1, b);
    }
  }

  function LowByte(c: bv32): Byte {
    (c & 0xFF) as Byte
  }

  /** The byte that is stored for an int: its value modulo 256. */
  lemma LowByteExactly(c: bv32)
    ensures LowByte(c) as bv32 == c % 256
  {
  }

  /** The byte of a 32-bit word stored at offset `k`, least significant first. */
  function WordByte(w: bv32, k: nat): Byte
    requires k < 4
  {
    LowByte(w >> (8 * k))
  }

  function Replicate(c: bv32): bv32 {
    var w := c & 0xFF;
    w | ((w << 8) | (w << 16) | (w << 24))
  }

  lemma ReplicatedBytes(c: bv32)
    ensures WordByte(Replicate(c), 0) == LowByte(c)
    ensures WordByte(Replicate(c), 1) == LowByte(c)
    ensures WordByte(Replicate(c), 2) == LowByte(c)
    ensures WordByte(Replicate(c), 3) == LowByte(c)
  {
  }

  method StoreWord(ram: array<Byte>, p: nat, w: bv32)
    requires p + 4 <= ram.Length
    modifies ram
    ensures forall k :: 0 <= k < 4 ==> ram[p + k] == WordByte(w, k)
    ensures forall j :: 0 <= j < ram.Length && !(p <= j < p + 4) ==> ram[j] == old(ram[j])
  {
    ram[p] := WordByte(w, 0);
    ram[p + 1] := WordByte(w, 1);
    ram[p + 2] := WordByte(w, 2);
    ram[p + 3] := WordByte(w, 3);
  }

  /** Head and tail: the first and the last four bytes, by overlapping stores. */
  method FillEnds(ram: array<Byte>, dest: nat, n: nat, b: Byte) returns (done: bool)
    requires 0 < n && dest + n <= ram.Length
    modifies ram
    ensures forall j :: 0 <= j < ram.Length && !(dest <= j < dest + n) ==> ram[j] == old(ram[j])
    ensures forall j :: dest <= j < dest + n && (j < dest + 4 || dest + n - 4 <= j) && !done ==> ram[j] == b
    ensures done ==> forall j :: dest <= j < dest + n ==> ram[j] == b
    ensures done <==> n <= 8
  {
    ram[dest + n - 1] := b;
    ram[dest] := b;
    if n <= 2 {
      return true;
    }
    ram[dest + n - 2] := b;
    ram[dest + 1] := b;
    ram[dest + n - 3] := b;
    ram[dest + 2] := b;
    if n <= 6 {
      return true;
    }
    ram[dest + n - 4] := b;
    ram[dest + 3] := b;
    return n <= 8;
  }

  /** The words written cover all but the ends of the region, at aligned addresses. */
  lemma WordRegion(dest: nat, n: nat)
    requires 8 < n && dest <= ADDRESS_SPACE
    ensures var k := (ADDRESS_SPACE - dest) % 4;
      var left := (n - k - (n - k) % 4) / 4;
      0 < left && (dest + k) % 4 == 0 && k < 4 && dest + n - 4 < dest + k + 4 * left <= dest + n
  {
  }

  lemma FilledPointwise(m: seq<Byte>, m': seq<Byte>, dest: nat, n: nat, b: Byte)
    requires |m'| == |m| && dest + n <= |m|
    requires forall j :: 0 <= j < |m| && !(dest <= j < dest + n) ==> m'[j] == m[j]
    requires forall j :: dest <= j < dest + n ==> m'[j] == b
    ensures m' == Filled(m, dest, n, b)
  {
  }

  method Memset(ram: array<Byte>, dest: nat, c: bv32, n: nat)
    requires dest + n <= ram.Length <= ADDRESS_SPACE
    modifies ram
    ensures ram[..] == Filled(old(ram[..]), dest, n, LowByte(c))
    ensures forall j :: dest <= j < dest + n ==> ram[j] as bv32 == c % 256
    ensures forall j :: 0 <= j < ram.Length && !(dest <= j < dest + n) ==> ram[j] == old(ram[j])
  {
    LowByteExactly(c);
    if n == 0 {
      return;
    }
    ghost var b := LowByte(c);
    var done := FillEnds(ram, dest, n, LowByte(c));
    if done {
      return;
    }
    // Advance to a 4-byte boundary and truncate to a multiple of 4.
    var k := (ADDRESS_SPACE - dest) % 4;
    var traverser := dest + k;
    var left: nat := (n - k - (n - k) % 4) / 4;
    WordRegion(dest, n);
    var word := Replicate(c);
    ReplicatedBytes(c);
    ghost var end := traverser + 4 * left;
    while left != 0
      invariant traverser + 4 * left == end && traverser % 4 == 0
      invariant dest + k <= traverser
      invariant forall j :: 0 <= j < ram.Length && !(dest <= j < dest + n) ==> ram[j] == old(ram[j])
      invariant forall j :: dest <= j < dest + n && (j < traverser || j < dest + 4 || dest + n - 4 <= j) ==> ram[j] == b
    {
      StoreWord(ram, traverser, word);
      assert ram[traverser] == b && ram[traverser + 1] == b && ram[traverser + 2] == b && ram[traverser + 3] == b by {
        assert ram[traverser + 0] == WordByte(word, 0);
        assert ram[traverser + 1] == WordByte(word, 1);
        assert ram[traverser + 2] == WordByte(word, 2);
        assert ram[traverser + 3] == WordByte(word, 3);
      }
      traverser := traverser + 4;
      left := left - 1;
    }
    FilledPointwise(old(ram[..]), ram[..], dest, n, b);
  }

  // ---------------------------------------------------------------------
  // memcpy
  // ---------------------------------------------------------------------

  /** Where byte `j` of a forward copy really comes from: when the destination lies above the
      source and overlaps it, the copy repeats the bytes between the two pointers. */
  function Origin(d: nat, s: nat, j: nat): (r: nat)
    ensures s <= r <= s + j
    decreases j
  {
    if s < d && d - s <= j then Origin(d, s, j - (d - s)) else s + j
  }

  /** The effect of copying upwards byte by byte, for any placement of the two regions. */
  function CopiedForward(m: seq<Byte>, d: nat, s: nat, n: nat): seq<Byte>
    requires d + n <= |m| && s + n <= |m|
  {
    seq(|m|, i requires 0 <= i < |m| => if d <= i < d + n then m[Origin(d, s, i - d)] else m[i])
  }

  method Memcpy(ram: array<Byte>, dest: nat, src: nat, count: nat)
    requires dest + count <= ram.Length && src + count <= ram.Length
    modifies ram
    ensures ram[..] == CopiedForward(old(ram[..]), dest, src, count)
  {
    var d, s, n: nat := dest, src, count;
    ghost var m := ram[..];
    while n != 0
      invariant n <= count && d == dest + (count - n) && s == src + (count - n)
      invariant forall i :: 0 <= i < ram.Length && !(dest <= i < d) ==> ram[i] == m[i]
      invariant forall i :: dest <= i < d ==> ram[i] == m[Origin(dest, src, i - dest)]
    {
      assert ram[s] == m[Origin(dest, src, count - n)] by {
        if src < dest && dest <= s {
          assert ram[s] == m[Origin(dest, src, s - dest)];
        }
      }
      ram[d] := ram[s];
      n := n - 1;
      d := d + 1;
      s := s + 1;
    }
  }

  /** The source window repeats itself every `q` bytes. */
  ghost predicate Periodic(m: seq<Byte>, s: nat, n: nat, q: nat)
    requires s + n <= |m|
  {
    forall i :: s + q <= i < s + n ==> m[i] == m[i - q]
  }

  lemma {:induction false} PeriodicOrigin(m: seq<Byte>, d: nat, s: nat, n: nat, j: nat)
    requires s + n <= |m| && s < d && j < n && Periodic(m, s, n, d - s)
    ensures m[Origin(d, s, j)] == m[s + j]
    decreases j
  {
    if d - s <= j {
      PeriodicOrigin(m, d, s, n, j - (d - s));
    }
  }

  lemma MovedPointwise(m: seq<Byte>, m': seq<Byte>, d: nat, s: nat, n: nat)
    requires |m'| == |m| && d + n <= |m| && s + n <= |m|
    requires forall i :: 0 <= i < |m| && !(d <= i < d + n) ==> m'[i] == m[i]
    requires forall i :: d <= i < d + n ==> m'[i] == m[s + (i - d)]
    ensures m' == Moved(m, d, s, n)
  {
  }

  lemma PeriodicCopyIsMove(m: seq<Byte>, d: nat, s: nat, n: nat)
    requires d + n <= |m| && s + n <= |m| && (d <= s || Periodic(m, s, n, d - s))
    ensures CopiedForward(m, d, s, n) == Moved(m, d, s, n)
  {
    hide Periodic;
    var c := CopiedForward(m, d, s, n);
    forall i | d <= i < d + n
      ensures c[i] == m[s + (i - d)]
    {
      assert c[i] == m[Origin(d, s, i - d)];
      if s < d {
        PeriodicOrigin(m, d, s, n, i - d);
      } else {
        assert Origin(d, s, i - d) == s + (i - d);
      }
    }
    MovedPointwise(m, c, d, s, n);
  }

  lemma MoveByCopyIsPeriodic(m: seq<Byte>, d: nat, s: nat, n: nat)
    requires d + n <= |m| && s + n <= |m| && s < d
    requires CopiedForward(m, d, s, n) == Moved(m, d, s, n)
    ensures Periodic(m, s, n, d - s)
  {
    var c, v := CopiedForward(m, d, s, n), Moved(m, d, s, n);
    forall i | s + (d - s) <= i < s + n
      ensures m[i] == m[i - (d - s)]
    {
      var j := i - s;
      assert Origin(d, s, j) == Origin(d, s, i - d);
      assert c[d + j] == m[Origin(d, s, j)] && c[i] == m[Origin(d, s, i - d)];
      assert v[d + j] == m[i] && v[i] == m[i - (d - s)];
    }
  }

  /** `memcpy` is a move exactly when the destination is not above the source, or the source
      window has the distance between them as a period (trivially so if they do not overlap). */
  lemma CopyIsMoveExactly(m: seq<Byte>, d: nat, s: nat, n: nat)
    requires d + n <= |m| && s + n <= |m|
    ensures CopiedForward(m, d, s, n) == Moved(m, d, s, n) <==> d <= s || Periodic(m, s, n, d - s)
  {
    hide Periodic, CopiedForward, Moved;
    if d <= s || Periodic(m, s, n, d - s) {
      PeriodicCopyIsMove(m, d, s, n);
    } else if CopiedForward(m, d, s, n) == Moved(m, d, s, n) {
      MoveByCopyIsPeriodic(m, d, s, n);
    }
  }

  // ---------------------------------------------------------------------
  // memmove
  // ---------------------------------------------------------------------

  predicate Disjoint(d: nat, s: nat, n: nat) {
    d + n <= s || s + n <= d
  }

  /** The overlap test of the source, in 64-bit unsigned arithmetic. */
  predicate TestsDisjoint(d: nat, s: nat, n: nat) {
    (s - d - n) % ADDRESS_SPACE <= (-2 * n) % ADDRESS_SPACE
  }

  /** For regions that do not wrap, the test tells disjoint regions from overlapping ones
      exactly when they are at most 2^63 bytes long; beyond that it always says disjoint. */
  lemma OverlapTestExactly(d: nat, s: nat, n: nat)
    requires d != s && 0 < n && d + n <= ADDRESS_SPACE && s + n <= ADDRESS_SPACE
    ensures (TestsDisjoint(d, s, n) <==> Disjoint(d, s, n)) <==> n <= HALF_SPACE
    ensures HALF_SPACE < n ==> TestsDisjoint(d, s, n)
  {
  }

  /** The backward loop stores before it decrements; the repair is to decrement first. */
  datatype Backward = StoreThenDecrement | DecrementThenStore

  /** Overlapping regions with the destination above take the backward loop. */
  predicate TakesBackward(d: nat, s: nat, n: nat) {
    s < d && !TestsDisjoint(d, s, n)
  }

  /** The effect of `memmove` by the way it takes. */
  function MoveEffect(m: seq<Byte>, d: nat, s: nat, n: nat, style: Backward): seq<Byte>
    requires d + n <= |m| && s + n <= |m|
    requires TakesBackward(d, s, n) && style.StoreThenDecrement? ==> d + n < |m|
  {
    if d != s && TestsDisjoint(d, s, n) then CopiedForward(m, d, s, n)
    else if TakesBackward(d, s, n) && style.StoreThenDecrement? then Moved(m, d + 1, s + 1, n)
    else Moved(m, d, s, n)
  }

  method MoveUp(ram: array<Byte>, dest: nat, src: nat, count: nat)
    requires dest < src && src + count <= ram.Length
    modifies ram
    ensures ram[..] == Moved(old(ram[..]), dest, src, count)
  {
    ghost var m := ram[..];
    var d, s, n: nat := dest, src, count;
    while n != 0
      invariant n <= count && d == dest + (count - n) && s == src + (count - n)
      invariant forall i :: 0 <= i < ram.Length && !(dest <= i < d) ==> ram[i] == m[i]
      invariant forall i :: dest <= i < d ==> ram[i] == m[src + (i - dest)]
    {
      assert ram[s] == m[src + (d - dest)];
      ram[d] := ram[s];
      n := n - 1;
      d := d + 1;
      s := s + 1;
    }
    MovedPointwise(m, ram[..], dest, src, count);
  }

  /** The backward loop as written: it stores before it decrements. */
  method MoveDownAsWritten(ram: array<Byte>, d: nat, s: nat, count: nat)
    requires s < d && d + count < ram.Length
    modifies ram
    ensures ram[..] == Moved(old(ram[..]), d + 1, s + 1, count)
  {
    ghost var m := ram[..];
    var n: nat := count;
    while n != 0
      invariant n <= count
      invariant forall i :: 0 <= i < ram.Length && !(d + 1 + n <= i < d + 1 + count) ==> ram[i] == m[i]
      invariant forall i :: d + 1 + n <= i < d + 1 + count ==> ram[i] == m[s + (i - d)]
    {
      assert ram[s + n] == m[s + n];
      ram[d + n] := ram[s + n];
      n := n - 1;
    }
    MovedPointwise(m, ram[..], d + 1, s + 1, count);
  }

  /** The backward loop repaired. */
  method MoveDown(ram: array<Byte>, d: nat, s: nat, count: nat)
    requires s < d && d + count <= ram.Length
    modifies ram
    ensures ram[..] == Moved(old(ram[..]), d, s, count)
  {
    ghost var m := ram[..];
    var n: nat := count;
    while n != 0
      invariant n <= count
      invariant forall i :: 0 <= i < ram.Length && !(d + n <= i < d + count) ==> ram[i] == m[i]
      invariant forall i :: d + n <= i < d + count ==> ram[i] == m[s + (i - d)]
    {
      n := n - 1;
      assert ram[s + n] == m[s + n];
      ram[d + n] := ram[s + n];
    }
    MovedPointwise(m, ram[..], d, s, count);
  }

  method Memmove(ram: array<Byte>, dest: nat, src: nat, count: nat, style: Backward)
    requires dest + count <= ram.Length && src + count <= ram.Length
    // As written, the byte after the destination is accessed too.
    requires TakesBackward(dest, src, count) && style.StoreThenDecrement? ==> dest + count < ram.Length
    modifies ram
    ensures ram[..] == MoveEffect(old(ram[..]), dest, src, count, style)
  {
    hide TestsDisjoint, CopiedForward;
    if dest == src {
      assert ram[..] == Moved(ram[..], dest, src, count);
    } else if TestsDisjoint(dest, src, count) {
      Memcpy(ram, dest, src, count);
    } else if dest < src {
      MoveUp(ram, dest, src, count);
    } else if style.StoreThenDecrement? {
      MoveDownAsWritten(ram, dest, src, count);
    } else {
      MoveDown(ram, dest, src, count);
    }
  }

  /** With the repair, `memmove` moves exactly when the size is at most 2^63, or a forward copy
      is a move anyway. */
  lemma RepairedMemmoveExactly(m: seq<Byte>, d: nat, s: nat, n: nat)
    requires d + n <= |m| <= ADDRESS_SPACE && s + n <= |m|
    ensures MoveEffect(m, d, s, n, DecrementThenStore) == Moved(m, d, s, n)
      <==> n <= HALF_SPACE || d <= s || Periodic(m, s, n, d - s)
  {
    hide TestsDisjoint, CopiedForward, Moved;
    if d != s && n > 0 {
      OverlapTestExactly(d, s, n);
    }
    CopyIsMoveExactly(m, d, s, n);
  }

  lemma MovedAt(m: seq<Byte>, d: nat, s: nat, n: nat, i: nat)
    requires d + n <= |m| && s + n <= |m| && i < |m|
    ensures Moved(m, d, s, n)[i] == if d <= i < d + n then m[s + (i - d)] else m[i]
  {
  }

  lemma ShiftedMoveExactly(m: seq<Byte>, d: nat, s: nat, n: nat)
    requires d + n < |m| && s + n <= |m| && 0 < n && s < d
    ensures Moved(m, d + 1, s + 1, n) == Moved(m, d, s, n) <==> m[d] == m[s] && m[d + n] == m[s + n]
  {
    var w, v := Moved(m, d + 1, s + 1, n), Moved(m, d, s, n);
    MovedAt(m, d + 1, s + 1, n, d);
    MovedAt(m, d, s, n, d);
    MovedAt(m, d + 1, s + 1, n, d + n);
    MovedAt(m, d, s, n, d + n);
    forall i | 0 <= i < |m| && i != d && i != d + n
      ensures w[i] == v[i]
    {
      MovedAt(m, d + 1, s + 1, n, i);
      MovedAt(m, d, s, n, i);
    }
  }

  /** As written, the backward loop moves both windows shifted up by one.  It is right exactly
      when the two bytes that go wrong happen to be equal already. */
  lemma AsWrittenMemmoveExactly(m: seq<Byte>, d: nat, s: nat, n: nat)
    requires d + n <= |m| <= ADDRESS_SPACE && s + n <= |m|
    requires TakesBackward(d, s, n) ==> d + n < |m|
    ensures TakesBackward(d, s, n) ==> MoveEffect(m, d, s, n, StoreThenDecrement) == Moved(m, d + 1, s + 1, n)
    ensures MoveEffect(m, d, s, n, StoreThenDecrement) == Moved(m, d, s, n) <==>
      if TakesBackward(d, s, n) then n == 0 || (m[d] == m[s] && m[d + n] == m[s + n])
      else n <= HALF_SPACE || d <= s || Periodic(m, s, n, d - s)
  {
    hide TestsDisjoint, CopiedForward, Periodic;
    RepairedMemmoveExactly(m, d, s, n);
    if TakesBackward(d, s, n) && n > 0 {
      ShiftedMoveExactly(m, d, s, n);
    }
  }

  lemma BackwardCounterexample()
    ensures TakesBackward(1, 0, 2)
    ensures MoveEffect([1, 2, 3, 4], 1, 0, 2, StoreThenDecrement) == [1, 2, 2, 3]
    ensures Moved([1, 2, 3, 4], 1, 0, 2) == [1, 1, 2, 4]
  {
  }

  // ---------------------------------------------------------------------
  // memcmp
  // ---------------------------------------------------------------------

  /** The first position where two windows differ, or their length. */
  function FirstDifference(m: seq<Byte>, l: nat, r: nat, n: nat): (k: nat)
    requires l + n <= |m| && r + n <= |m|
    ensures k <= n
    decreases n
  {
    if n == 0 || m[l] != m[r] then 0 else 1 + FirstDifference(m, l + 1, r + 1, n - 1)
  }

  /** Bytes are compared as unsigned numbers. */
  function ByteDifference(a: Byte, b: Byte): int {
    a as int - b as int
  }

  lemma ByteDifferenceZero(a: Byte, b: Byte)
    ensures ByteDifference(a, b) == 0 <==> a == b
  {
  }

  function Comparison(m: seq<Byte>, l: nat, r: nat, n: nat): int
    requires l + n <= |m| && r + n <= |m|
    decreases n
  {
    if n == 0 then 0
    else if m[l] != m[r] then ByteDifference(m[l], m[r])
    else Comparison(m, l + 1, r + 1, n - 1)
  }

  /** The windows agree up to offset `k` and differ there. */
  ghost predicate FirstDiffersAt(m: seq<Byte>, l: nat, r: nat, k: nat)
    requires l + k < |m| && r + k < |m|
  {
    m[l + k] != m[r + k] && forall i :: l <= i < l + k ==> m[i] == m[r + (i - l)]
  }

  lemma {:induction false} ComparisonAtFirstDifference(m: seq<Byte>, l: nat, r: nat, n: nat)
    requires l + n <= |m| && r + n <= |m|
    ensures var k := FirstDifference(m, l, r, n);
      Comparison(m, l, r, n) == if k < n then ByteDifference(m[l + k], m[r + k]) else 0
    decreases n
  {
    hide ByteDifference;
    if n > 0 && m[l] == m[r] {
      ComparisonAtFirstDifference(m, l + 1, r + 1, n - 1);
    }
  }

  lemma {:induction false} FirstDifferenceMeaning(m: seq<Byte>, l: nat, r: nat, n: nat)
    requires l + n <= |m| && r + n <= |m|
    ensures var k := FirstDifference(m, l, r, n);
      (k < n ==> m[l + k] != m[r + k]) && forall i :: l <= i < l + k ==> m[i] == m[r + (i - l)]
    decreases n
  {
    if n > 0 && m[l] == m[r] {
      FirstDifferenceMeaning(m, l + 1, r + 1, n - 1);
    }
  }

  lemma EqualWindows(m: seq<Byte>, l: nat, r: nat, n: nat)
    requires l + n <= |m| && r + n <= |m|
    ensures FirstDifference(m, l, r, n) == n <==> m[l..l + n] == m[r..r + n]
  {
    FirstDifferenceMeaning(m, l, r, n);
    var k := FirstDifference(m, l, r, n);
    if k < n {
      assert m[l..l + n][k] == m[l + k] && m[r..r + n][k] == m[r + k];
    }
  }

  /** `memcmp` is zero exactly for equal windows, and otherwise the difference at the first byte
      that differs. */
  lemma ComparisonExactly(m: seq<Byte>, l: nat, r: nat, n: nat)
    requires l + n <= |m| && r + n <= |m|
    ensures Comparison(m, l, r, n) == 0 <==> m[l..l + n] == m[r..r + n]
    ensures var k := FirstDifference(m, l, r, n);
      k < n ==> FirstDiffersAt(m, l, r, k) && Comparison(m, l, r, n) == m[l + k] as int - m[r + k] as int
  {
    ComparisonAtFirstDifference(m, l, r, n);
    EqualWindows(m, l, r, n);
    FirstDifferenceMeaning(m, l, r, n);
    var k := FirstDifference(m, l, r, n);
    if k < n {
      ByteDifferenceZero(m[l + k], m[r + k]);
    }
  }

  /** There is only one first difference. */
  lemma DifferenceIsFirst(m: seq<Byte>, l: nat, r: nat, n: nat)
    requires l + n <= |m| && r + n <= |m|
    ensures forall k :: 0 <= k < n && FirstDiffersAt(m, l, r, k) ==> k == FirstDifference(m, l, r, n)
  {
    FirstDifferenceMeaning(m, l, r, n);
    var f := FirstDifference(m, l, r, n);
    assert f < n ==> m[l + f] != m[r + f];
    forall k | 0 <= k < n && FirstDiffersAt(m, l, r, k)
      ensures k <= f
    {
      assert m[l + k] != m[r + (l + k - l)];
    }
  }

  lemma ComparisonMeans(m: seq<Byte>, l: nat, r: nat, n: nat)
    requires l + n <= |m| && r + n <= |m|
    ensures Comparison(m, l, r, n) == 0 <==> m[l..l + n] == m[r..r + n]
    ensures forall k :: 0 <= k < n && FirstDiffersAt(m, l, r, k) ==>
      Comparison(m, l, r, n) == m[l + k] as int - m[r + k] as int
  {
    hide FirstDiffersAt, Comparison;
    ComparisonExactly(m, l, r, n);
    DifferenceIsFirst(m, l, r, n);
  }

  method Memcmp(ram: array<Byte>, vl: nat, vr: nat, count: nat) returns (result: int)
    requires vl + count <= ram.Length && vr + count <= ram.Length
    ensures result == Comparison(ram[..], vl, vr, count)
    ensures result == 0 <==> ram[..][vl..vl + count] == ram[..][vr..vr + count]
    ensures forall k :: 0 <= k < count && FirstDiffersAt(ram[..], vl, vr, k) ==>
      result == ram[..][vl + k] as int - ram[..][vr + k] as int
  {
    hide ByteDifference, FirstDiffersAt;
    ComparisonMeans(ram[..], vl, vr, count);
    var l, r, n: nat := vl, vr, count;
    while n != 0 && ram[l] == ram[r]
      invariant n <= count && l == vl + (count - n) && r == vr + (count - n)
      invariant Comparison(ram[..], vl, vr, count) == Comparison(ram[..], l, r, n)
    {
      n := n - 1;
      l := l + 1;
      r := r + 1;
    }
    result := if n != 0 then ByteDifference(ram[l], ram[r]) else 0;
  }
}
