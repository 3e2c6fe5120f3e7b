/** BitMap: an array of 32-bit words managed bit by bit. */
module BitMaps {
  import opened Bytes

  /** The mask 1 << k. */
  function Mask(k: int): bv32
    requires 0 <= k < 32
  {
    if k == 0 then 1 else Mask(k - 1) << 1
  }

  lemma ShiftAmount(a: bv6)
    requires a as int < 31
    ensures a < 31 && (a + 1) as int == a as int + 1
  {
  }

  lemma ShiftOnce(a: bv6)
    requires a < 31
    ensures ((1 as bv32) << a) << 1 == (1 as bv32) << (a + 1)
  {
  }

  /** The mask of bit `k` is a one shifted left by `k`. */
  lemma {:induction false} MaskIsShift(k: int) returns (a: bv6)
    requires 0 <= k < 32
    ensures a < 32 && a as int == k && Mask(k) == (1 as bv32) << a
  {
    if k == 0 {
      a := 0;
    } else {
      var b := MaskIsShift(k - 1);
      ShiftAmount(b);
      ShiftOnce(b);
      a := b + 1;
    }
  }

  /** `w & m` is non-zero; `w | m`; `w & ~m`. */
  predicate Tests(w: bv32, m: bv32) {
    w & m != 0
  }

  function SetMask(w: bv32, m: bv32): bv32 {
    w | m
  }

  function DropMask(w: bv32, m: bv32): bv32 {
    w & !m
  }

  predicate Disjoint(m: bv32, n: bv32) {
    m & n == 0
  }

  lemma ShiftsDisjoint(a: bv6, b: bv6)
    requires a < 32 && b < 32
    ensures (1 as bv32) << a != 0
    ensures a != b ==> Disjoint((1 as bv32) << a, (1 as bv32) << b)
  {
  }

  /** Different positions have disjoint masks. */
  lemma MasksDisjoint(k: int, j: int)
    requires 0 <= k < 32 && 0 <= j < 32
    ensures Mask(k) != 0
    ensures k != j ==> Disjoint(Mask(k), Mask(j))
  {
    hide Disjoint;
    var a := MaskIsShift(k);
    var b := MaskIsShift(j);
    ShiftsDisjoint(a, b);
  }

  lemma MaskAlgebra(w: bv32, m: bv32, n: bv32)
    requires m & n == 0
    ensures (w | m) & n == w & n
    ensures (w & !m) & n == w & n
  {
  }

  lemma DisjointMask(w: bv32, m: bv32, n: bv32)
    requires Disjoint(m, n)
    ensures Tests(SetMask(w, m), n) == Tests(w, n)
    ensures Tests(DropMask(w, m), n) == Tests(w, n)
  {
    MaskAlgebra(w, m, n);
  }

  lemma AbsorbAlgebra(w: bv32, n: bv32)
    ensures (w | n) & n == n
    ensures (w & !n) & n == 0
  {
  }

  lemma SameMask(w: bv32, n: bv32)
    requires n != 0
    ensures Tests(SetMask(w, n), n)
    ensures !Tests(DropMask(w, n), n)
  {
    AbsorbAlgebra(w, n);
  }

  /** Bit k of a word, by the mask the code uses. */
  predicate Bit(w: bv32, k: int)
    requires 0 <= k < 32
  {
    Tests(w, Mask(k))
  }

  lemma BitAfterMask(w: bv32, k: int, j: int)
    requires 0 <= k < 32 && 0 <= j < 32
    ensures Bit(SetMask(w, Mask(k)), j) == (j == k || Bit(w, j))
    ensures Bit(DropMask(w, Mask(k)), j) == (j != k && Bit(w, j))
  {
    hide Mask, Tests, SetMask, DropMask, Disjoint;
    MasksDisjoint(k, j);
    if j == k {
      SameMask(w, Mask(k));
    } else {
      DisjointMask(w, Mask(k), Mask(j));
    }
  }

  /** The first n bits held by the words. */
  function BitsOf(ws: seq<bv32>, n: nat): (bits: seq<bool>)
    requires n <= 32 * |ws|
    ensures |bits| == n
  {
    seq(n, i requires 0 <= i < n => Bit(ws[i / 32], i % 32))
  }

  /** Bit i of a map is bit i % 32 of word i / 32. */
  lemma BitPlace(ws: seq<bv32>, n: nat, i: nat) returns (a: bv6)
    requires i < n <= 32 * |ws|
    ensures a < 32 && a as int == i % 32
    ensures BitsOf(ws, n)[i] <==> ws[i / 32] & ((1 as bv32) << a) != 0
  {
    a := MaskIsShift(i % 32);
  }

  lemma MarkedWord(ws: seq<bv32>, n: nat, i: nat)
    requires i < n <= 32 * |ws|
    ensures BitsOf(ws[i / 32 := SetMask(ws[i / 32], Mask(i % 32))], n) == BitsOf(ws, n)[i := true]
  {
    hide Bit, Mask, SetMask, DropMask;
    var w := ws[i / 32];
    var ws' := ws[i / 32 := SetMask(w, Mask(i % 32))];
    forall j | 0 <= j < n
      ensures BitsOf(ws', n)[j] == BitsOf(ws, n)[i := true][j]
    {
      BitAfterMask(w, i % 32, j % 32);
    }
  }

  lemma ClearedWord(ws: seq<bv32>, n: nat, i: nat)
    requires i < n <= 32 * |ws|
    ensures BitsOf(ws[i / 32 := DropMask(ws[i / 32], Mask(i % 32))], n) == BitsOf(ws, n)[i := false]
  {
    hide Bit, Mask, SetMask, DropMask;
    var w := ws[i / 32];
    var ws' := ws[i / 32 := DropMask(w, Mask(i % 32))];
    forall j | 0 <= j < n
      ensures BitsOf(ws', n)[j] == BitsOf(ws, n)[i := false][j]
    {
      BitAfterMask(w, i % 32, j % 32);
    }
  }

  /** The positions that are clear, and those that are set. */
  function Clear(bits: seq<bool>): set<int> {
    set i | 0 <= i < |bits| && !bits[i]
  }

  function Marked(bits: seq<bool>): set<int> {
    set i | 0 <= i < |bits| && bits[i]
  }

  function Interval(n: nat): (s: set<int>)
    ensures |s| == n
    ensures forall i :: i in s <==> 0 <= i < n
  {
    if n == 0 then {} else Interval(n - 1) + {n - 1}
  }

  /** Clear and marked bits partition the map. */
  lemma ClearPlusMarked(bits: seq<bool>)
    ensures |Clear(bits)| + |Marked(bits)| == |bits|
  {
    assert Clear(bits) + Marked(bits) == Interval(|bits|);
    assert Clear(bits) !! Marked(bits);
  }

  lemma ClearOfPrefix(bits: seq<bool>, i: nat)
    requires i < |bits|
    ensures Clear(bits[..i + 1]) == Clear(bits[..i]) + (if bits[i] then {} else {i})
    ensures i !in Clear(bits[..i])
  {
  }

  lemma MarkTakesOne(bits: seq<bool>, i: nat)
    requires i < |bits| && !bits[i]
    ensures Clear(bits[i := true]) == Clear(bits) - {i} && i in Clear(bits)
    ensures |Clear(bits[i := true])| == |Clear(bits)| - 1
  {
    assert Clear(bits[i := true]) == Clear(bits) - {i};
  }

  /** The first clear bit in i..|bits|, or -1. */
  function FirstClear(bits: seq<bool>, i: nat): (r: int)
    ensures r == -1 || (i <= r < |bits| && !bits[r])
    ensures forall j :: i <= j < (if r == -1 then |bits| else r) ==> bits[j]
    decreases |bits| - i
  {
    if i >= |bits| then -1 else if !bits[i] then i else FirstClear(bits, i + 1)
  }

  lemma NoneClear(bits: seq<bool>)
    ensures FirstClear(bits, 0) == -1 <==> Clear(bits) == {}
  {
    if FirstClear(bits, 0) != -1 {
      assert FirstClear(bits, 0) in Clear(bits);
    }
  }

  // Taking several bits.

  /** What taking `secs` does to a map: they were clear and distinct, and exactly they are marked. */
  ghost predicate Taken(before: seq<bool>, secs: seq<int32>, after: seq<bool>) {
    && |after| == |before|
    && (forall i :: 0 <= i < |secs| ==> 0 <= secs[i] < |before| && !before[secs[i]])
    && (forall i, j :: 0 <= i < j < |secs| ==> secs[i] < secs[j])
    && (forall s :: 0 <= s < |before| ==> (after[s] <==> before[s] || s in secs))
  }

  /** Allocation is first fit: nothing below the last one taken is left clear. */
  ghost predicate FirstFit(secs: seq<int32>, after: seq<bool>) {
    forall i, s :: 0 <= i < |secs| && 0 <= s <= secs[i] < |after| ==> after[s]
  }

  lemma NothingTaken(bits: seq<bool>, none: seq<int32>)
    requires none == []
    ensures Taken(bits, none, bits) && FirstFit(none, bits)
  {
  }

  /** One more first-fit allocation extends the run of bits taken. */
  lemma TakeOneMore(before: seq<bool>, secs: seq<int32>, mid: seq<bool>, s: int32)
    requires Taken(before, secs, mid) && FirstFit(secs, mid)
    requires 0 <= s < |mid| && !mid[s] && (forall j :: 0 <= j < s ==> mid[j])
    ensures Taken(before, secs + [s], mid[s := true]) && FirstFit(secs + [s], mid[s := true])
  {
    assert forall i :: 0 <= i < |secs| ==> secs[i] < s by {
      forall i | 0 <= i < |secs|
        ensures secs[i] < s
      {
        if s <= secs[i] {
          assert false;
        }
      }
    }
  }

  class BitMap {
    const numBits: nat
    const numWords: nat
    const words: array<bv32>

    ghost predicate Valid() {
      numWords == words.Length && numWords == (numBits + 31) / 32
    }

    ghost function Bits(): (bits: seq<bool>)
      requires Valid()
      reads words
      ensures |bits| == numBits
    {
      BitsOf(words[..], numBits)
    }

    constructor (nitems: nat)
      ensures Valid() && fresh(words) && numBits == nitems
      ensures forall i :: 0 <= i < nitems ==> !Bits()[i]
    {
      numBits := nitems;
      numWords := (nitems + 31) / 32;
      words := new bv32[(nitems + 31) / 32];
      new;
      for i := 0 to nitems
        invariant Valid()
        invariant forall j :: 0 <= j < i ==> !Bits()[j]
      {
        ClearBit(i);
      }
    }

    method Mark(which: nat)
      requires Valid() && which < numBits
      modifies words
      ensures Bits() == old(Bits())[which := true]
    {
      MarkedWord(words[..], numBits, which);
      words[which / 32] := SetMask(words[which / 32], Mask(which % 32));
      assert words[..] == old(words[..])[which / 32 := words[which / 32]];
    }

    method ClearBit(which: nat)
      requires Valid() && which < numBits
      modifies words
      ensures Bits() == old(Bits())[which := false]
    {
      ClearedWord(words[..], numBits, which);
      words[which / 32] := DropMask(words[which / 32], Mask(which % 32));
      assert words[..] == old(words[..])[which / 32 := words[which / 32]];
    }

    method Test(which: nat) returns (r: bool)
      requires Valid() && which < numBits
      ensures r == Bits()[which]
    {
      r := Tests(words[which / 32], Mask(which % 32));
    }

    /** Takes the lowest clear bit, or reports that there is none. */
    method Find() returns (r: int)
      requires Valid()
      modifies words
      ensures r == FirstClear(old(Bits()), 0)
      ensures Bits() == if r == -1 then old(Bits()) else old(Bits())[r := true]
    {
      for i := 0 to numBits
        invariant words[..] == old(words[..])
        invariant FirstClear(Bits(), i) == FirstClear(Bits(), 0)
      {
        var t := Test(i);
        if !t {
          Mark(i);
          return i;
        }
      }
      return -1;
    }

    method NumClear() returns (count: nat)
      requires Valid()
      ensures count == |Clear(Bits())|
    {
      count := 0;
      for i := 0 to numBits
        invariant count == |Clear(Bits()[..i])|
      {
        ClearOfPrefix(Bits(), i);
        var t := Test(i);
        if !t {
          count := count + 1;
        }
      }
      assert Bits()[..numBits] == Bits();
    }
  }

  // The on-disk form: the words' bytes, lowest first.

  /** The bytes FetchFrom and WriteBack exchange with a file. */
  function WordBytes(ws: seq<bv32>): (b: seq<byte>)
    ensures |b| == 4 * |ws|
  {
    Words(seq(|ws|, i requires 0 <= i < |ws| => ws[i] as int))
  }

  function WordsFromBytes(b: seq<byte>): (ws: seq<bv32>)
    requires |b| % 4 == 0
    ensures |ws| == |b| / 4
  {
    seq(|b| / 4, i requires 0 <= i < |b| / 4 => WordAt(b, i) as bv32)
  }

  lemma WordBytesRoundTrip(ws: seq<bv32>)
    ensures WordsFromBytes(WordBytes(ws)) == ws
  {
    var us: seq<uint32> := seq(|ws|, i requires 0 <= i < |ws| => ws[i] as int);
    forall i | 0 <= i < |ws|
      ensures WordsFromBytes(WordBytes(ws))[i] == ws[i]
    {
      WordsRoundTrip(us, i);
    }
  }

  /** The n bits stored in a file that holds the map. */
  function StoredBits(b: seq<byte>, n: nat): (bits: seq<bool>)
    requires |b| % 4 == 0 && n <= 8 * |b|
    ensures |bits| == n
  {
    BitsOf(WordsFromBytes(b), n)
  }
}
