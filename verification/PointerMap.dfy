/**
 The loader reads a pointer map in two ways: `setup_pointers` runs through its bytes from
 the first, `Type::is_pointer` indexes them from the last.
 */
module PointerMap {
  import opened Bytes
  import opened ObjectFile
  import opened HeapModel
  import opened ModuleHeap
  import opened PointerSlots
  import opened Targets

  /**
   Whether `is_pointer` calls the byte at `offset` part of a pointer. A negative map size
   is a huge unsigned one, and its first lookup is out of bounds.
   */
  function IsPointer(t: TypeDesc, offset: nat): Result<bool> {
    var i := offset / 32;
    var bit := 7 - offset % 32 / 4;
    if t.mapSize < 0 then Fail
    else if i < t.mapSize then
      var j := t.mapSize - i - 1;
      if j < |t.map_| then Ok(Bit(t.map_[j], bit)) else Fail
    else Ok(false)
  }

  predicate Palindrome(map_: seq<byte>) {
    forall k :: 0 <= k < |map_| ==> map_[k] == map_[|map_| - 1 - k]
  }

  function Pow2(n: nat): nat {
    if n == 0 then 1 else 2 * Pow2(n - 1)
  }

  lemma {:induction false} BitsDetermine(x: nat, y: nat, n: nat)
    requires x < Pow2(n) && y < Pow2(n)
    requires forall i :: 0 <= i < n ==> Bit(x, i) == Bit(y, i)
    ensures x == y
    decreases n
  {
    if n > 0 {
      assert Bit(x, 0) == Bit(y, 0);
      forall i | 0 <= i < n - 1
        ensures Bit(x / 2, i) == Bit(y / 2, i)
      {
        assert Bit(x, i + 1) == Bit(y, i + 1);
      }
      BitsDetermine(x / 2, y / 2, n - 1);
    }
  }

  lemma EightBits()
    ensures Pow2(8) == 256
  {
  }

  /** The two readings at one offset. */
  predicate SameReading(t: TypeDesc, offset: nat) {
    IsPointer(t, offset) == Ok(Marked(t.map_, offset / 4))
  }

  lemma ReadingAt(t: TypeDesc, k: nat, bit: nat)
    requires t.mapSize == |t.map_| && k < |t.map_| && bit < 8
    ensures SameReading(t, 32 * k + 4 * (7 - bit)) <==> Bit(t.map_[|t.map_| - 1 - k], bit) == Bit(t.map_[k], bit)
  {
    var offset := 32 * k + 4 * (7 - bit);
    assert offset / 32 == k && offset % 32 == 4 * (7 - bit) && offset / 4 == 8 * k + (7 - bit);
    assert offset / 4 / 8 == k && offset / 4 % 8 == 7 - bit;
  }

  /** The map of a descriptor the loader has read: none at all under a negative map size. */
  predicate MapRead(t: TypeDesc) {
    |t.map_| == if t.mapSize < 0 then 0 else t.mapSize
  }

  lemma MapIsRead(b: seq<byte>, o: nat)
    requires TypeDescAt(b, o).Ok?
    ensures MapRead(TypeDescAt(b, o).value.0)
  {
  }

  /**
   The two readings agree at every offset exactly when the map size is not negative and
   the bytes of the map form a palindrome, as every map of at most one byte does.
   */
  lemma ReadingsAgreeOnPalindromes(t: TypeDesc)
    requires MapRead(t)
    ensures (forall offset: nat :: SameReading(t, offset)) <==> t.mapSize >= 0 && Palindrome(t.map_)
    ensures |t.map_| <= 1 ==> Palindrome(t.map_)
  {
    var n := |t.map_|;
    if forall offset: nat :: SameReading(t, offset) {
      assert SameReading(t, 0);
      forall k | 0 <= k < n
        ensures t.map_[k] == t.map_[n - 1 - k]
      {
        forall i | 0 <= i < 8
          ensures Bit(t.map_[k], i) == Bit(t.map_[n - 1 - k], i)
        {
          ReadingAt(t, k, i);
          assert SameReading(t, 32 * k + 4 * (7 - i));
        }
        EightBits();
        BitsDetermine(t.map_[k], t.map_[n - 1 - k], 8);
      }
    }
    if t.mapSize >= 0 && Palindrome(t.map_) {
      forall offset: nat
        ensures SameReading(t, offset)
      {
        PalindromeReading(t, offset);
      }
    }
  }

  lemma PalindromeReading(t: TypeDesc, offset: nat)
    requires t.mapSize == |t.map_| && Palindrome(t.map_)
    ensures SameReading(t, offset)
  {
  }

  /** `is_pointer` is `setup_pointers` on the map with its bytes reversed. */
  lemma IsPointerReversed(t: TypeDesc, reversed: seq<byte>, offset: nat)
    requires MapRead(t) && |reversed| == |t.map_|
    requires forall k :: 0 <= k < |reversed| ==> reversed[k] == t.map_[|t.map_| - 1 - k]
    ensures IsPointer(t, offset) == if t.mapSize < 0 then Fail else Ok(Marked(reversed, offset / 4))
  {
    hide Bit;
    assert offset / 4 / 8 == offset / 32 && offset / 4 % 8 == offset % 32 / 4;
  }

  /** Two unequal bytes are enough to disagree: only word 0 is marked by [0x80, 0x00]. */
  lemma TwoByteMapDisagrees()
    ensures var t := TypeDesc(0, 64, 2, [0x80, 0x00]); Marked(t.map_, 0) && IsPointer(t, 0) == Ok(false)
  {
    assert Bit(0x80, 7) && !Bit(0, 7) by {
      assert Bit(0x80, 7) == Bit(0x40, 6) == Bit(0x20, 5) == Bit(0x10, 4) == Bit(8, 3) == Bit(4, 2);
      assert !Bit(0, 5) && !Bit(0, 3);
    }
  }

  /** `setup_pointers` nulls exactly the marked words and leaves every other word as it was. */
  lemma StampedWords(map_: seq<byte>, m: seq<byte>, w: nat)
    requires 4 * w + 4 <= |m|
    ensures Marked(map_, w) ==> ReadWord(Stamped(map_, m), 4 * w) == VM_NULLPTR
    ensures !Marked(map_, w) ==> Stamped(map_, m)[4 * w..4 * w + 4] == m[4 * w..4 * w + 4]
  {
    hide Marked, ReadWord;
    var r := Stamped(map_, m);
    assert forall i :: 4 * w <= i < 4 * w + 4 ==> i / 4 == w;
    if Marked(map_, w) {
      HasAll(r, 4 * w, [0xFF, 0xFF, 0xFF, 0xFF]);
      AllOnes(r, 4 * w);
    }
  }
}
