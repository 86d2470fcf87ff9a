/** Substitution tables of 256 bytes: an injective one takes every value, and has an inverse. */
module Tables {
  import opened ByteTypes
  import opened Aes

  ghost predicate Injective(f: SBox)
  {
    forall i: byte, j: byte :: i != j ==> f[i] != f[j]
  }

  function Image(f: SBox, n: nat): set<byte>
    requires n <= 0x100
  {
    if n == 0 then {} else Image(f, n - 1) + {f[n - 1]}
  }

  lemma {:induction false} ImageMembers(f: SBox, n: nat, y: byte)
    requires n <= 0x100
    ensures y in Image(f, n) <==> exists i :: 0 <= i < n && f[i] == y
  {
    if n == 0 {
    } else {
      ImageMembers(f, n - 1, y);
    }
  }

  lemma {:induction false} ImageSize(f: SBox, n: nat)
    requires n <= 0x100 && Injective(f)
    ensures |Image(f, n)| == n
  {
    if n == 0 {
    } else {
      ImageSize(f, n - 1);
      ImageMembers(f, n - 1, f[n - 1]);
    }
  }

  /** The table that leaves every byte where it is. */
  function Identity(): SBox
  {
    seq(0x100, i requires 0 <= i < 0x100 => i)
  }

  /** An injective table of 256 bytes takes every value. */
  lemma Onto(f: SBox, y: byte)
    requires Injective(f)
    ensures exists i: byte :: f[i] == y
  {
    hide Image;
    var image, all := Image(f, 0x100), Image(Identity(), 0x100);
    ImageSize(f, 0x100);
    ImageSize(Identity(), 0x100);
    forall b: byte
      ensures b in all
    {
      ImageMembers(Identity(), 0x100, b);
      assert Identity()[b] == b;
    }
    assert image * all == image;
    assert |all - image| == 0;
    assert y in all && y !in all - image;
    ImageMembers(f, 0x100, y);
    var i: nat :| i < 0x100 && f[i] == y;
  }

  /** The table that undoes an injective one. */
  ghost function InverseTable(f: SBox): (inv: SBox)
    requires Injective(f)
    ensures Inverse(f, inv)
  {
    var inv := seq(0x100, y requires 0 <= y < 0x100 => Preimage(f, y));
    InverseOf(f, inv);
    inv
  }

  lemma InverseOf(f: SBox, inv: SBox)
    requires Injective(f) && forall y: byte :: inv[y] == Preimage(f, y)
    ensures Inverse(f, inv)
  {
    hide Preimage;
    forall b: byte
      ensures inv[f[b]] == b
    {
      assert f[Preimage(f, f[b])] == f[b];
    }
  }

  ghost function Preimage(f: SBox, y: byte): (i: byte)
    requires Injective(f)
    ensures f[i] == y
  {
    Onto(f, y);
    var i: byte :| f[i] == y;
    i
  }
}
