/** The free-block bitmap, eight bits to a byte. */
module BitmapModule {

  predicate Bit(b: bv8, j: nat)
    requires j < 8
  {
    b & (1 << j) != 0
  }

  lemma BitAfterMark(b: bv8, j: nat, k: nat)
    requires j < 8 && k < 8
    ensures Bit(b | (1 << j), k) <==> Bit(b, k) || k == j
  {
    if j == 0 {} else if j == 1 {} else if j == 2 {} else if j == 3 {}
    else if j == 4 {} else if j == 5 {} else if j == 6 {} else {}
  }

  lemma BitAfterClear(b: bv8, j: nat, k: nat)
    requires j < 8 && k < 8
    ensures Bit(b & !(1 << j), k) <==> Bit(b, k) && k != j
  {
    if j == 0 {} else if j == 1 {} else if j == 2 {} else if j == 3 {}
    else if j == 4 {} else if j == 5 {} else if j == 6 {} else {}
  }

  lemma NoBits(j: nat)
    requires j < 8
    ensures !Bit(0, j)
  {
  }

  class Bitmap {
    const numBits: nat
    const bytes: array<bv8>

    ghost predicate Valid()
      reads this
    {
      bytes.Length == (numBits + 7) / 8
    }

    /** The marked bits, as the set that the packed bytes stand for. */
    ghost function Marked(): set<nat>
      requires Valid()
      reads this, bytes
    {
      set k: nat | k < numBits && Bit(bytes[k / 8], k % 8)
    }

    constructor (nBits: nat)
      ensures Valid() && fresh(bytes) && numBits == nBits
      ensures Marked() == {}
    {
      numBits := nBits;
      bytes := new bv8[(nBits + 7) / 8](_ => 0);
      new;
      forall k: nat | k < numBits ensures !Bit(bytes[k / 8], k % 8) {
        NoBits(k % 8);
      }
    }

    method Mark(which: nat)
      requires Valid()
      modifies bytes
      ensures Marked() == if which < numBits then old(Marked()) + {which} else old(Marked())
    {
      if which >= numBits {
        return;
      }
      bytes[which / 8] := bytes[which / 8] | (1 << (which % 8));
      forall k: nat | k < numBits
        ensures Bit(bytes[k / 8], k % 8) <==> old(Bit(bytes[k / 8], k % 8)) || k == which {
        BitAfterMark(old(bytes[which / 8]), which % 8, k % 8);
      }
    }

    method Clear(which: nat)
      requires Valid()
      modifies bytes
      ensures Marked() == old(Marked()) - {which}
    {
      if which >= numBits {
        return;
      }
      bytes[which / 8] := bytes[which / 8] & !(1 << (which % 8));
      forall k: nat | k < numBits
        ensures Bit(bytes[k / 8], k % 8) <==> old(Bit(bytes[k / 8], k % 8)) && k != which {
        BitAfterClear(old(bytes[which / 8]), which % 8, k % 8);
      }
    }

    method Test(which: nat) returns (r: bool)
      requires Valid()
      ensures r <==> which in Marked()
    {
      if which >= numBits {
        return false;
      }
      return bytes[which / 8] & (1 << (which % 8)) != 0;
    }

    /** The lowest clear bit, or 0 when every bit is marked. */
    method Find() returns (r: nat)
      requires Valid()
      ensures r < numBits && r !in Marked() ==> forall k: nat :: k < r ==> k in Marked()
      ensures r >= numBits || r in Marked() ==> r == 0 && forall k: nat :: k < numBits ==> k in Marked()
    {
      var i := 0;
      while i < bytes.Length
        invariant 0 <= i <= bytes.Length
        invariant forall k: nat :: k < 8 * i && k < numBits ==> k in Marked()
      {
        var j := 0;
        while j < 8
          invariant 0 <= j <= 8
          invariant forall k: nat :: k < 8 * i + j && k < numBits ==> k in Marked()
        {
          if bytes[i] & (1 << j) == 0 {
            if i * 8 + j < numBits {
              assert !Bit(bytes[(i * 8 + j) / 8], (i * 8 + j) % 8);
              return i * 8 + j;
            } else {
              return 0;
            }
          }
          assert Bit(bytes[(i * 8 + j) / 8], (i * 8 + j) % 8);
          j := j + 1;
        }
        i := i + 1;
      }
      return 0;
    }
  }
}
