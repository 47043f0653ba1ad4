/** Disk space as a pair of bytes and inodes, under the componentwise partial order. */
module DiskSizes {

  datatype DiskSize = DiskSize(bytes: nat, inodes: nat) {
    /** Strictly more in one component and no less in the other; false on equality. */
    predicate Exceeds(other: DiskSize) {
      this != other && bytes >= other.bytes && inodes >= other.inodes
    }

    predicate AtLeast(other: DiskSize) {
      bytes >= other.bytes && inodes >= other.inodes
    }

    function SaturatingSub(other: DiskSize): DiskSize {
      DiskSize(if bytes >= other.bytes then bytes - other.bytes else 0,
               if inodes >= other.inodes then inodes - other.inodes else 0)
    }

    function Add(other: DiskSize): DiskSize {
      DiskSize(bytes + other.bytes, inodes + other.inodes)
    }
  }

  const ZERO := DiskSize(0, 0)

  function Min(a: DiskSize, b: DiskSize): DiskSize {
    DiskSize(if a.bytes <= b.bytes then a.bytes else b.bytes, if a.inodes <= b.inodes then a.inodes else b.inodes)
  }

  function Max(a: DiskSize, b: DiskSize): DiskSize {
    DiskSize(if a.bytes >= b.bytes then a.bytes else b.bytes, if a.inodes >= b.inodes then a.inodes else b.inodes)
  }

  lemma AddLaws(a: DiskSize, b: DiskSize, c: DiskSize)
    ensures a.Add(b).Add(c) == a.Add(b.Add(c)) && a.Add(b) == b.Add(a) && ZERO.Add(a) == a.Add(ZERO) == a
    ensures a.Add(b).Add(c) == a.Add(c).Add(b)
  {
  }

  /** The order is that of adding: a size is at least another, or exceeds it, if something, or something
      that is not nothing, added to the other makes it up. */
  lemma OrderIsAdding(a: DiskSize, b: DiskSize)
    ensures a.AtLeast(b) <==> exists c: DiskSize :: a == b.Add(c)
    ensures a.Exceeds(b) <==> exists c: DiskSize :: c != ZERO && a == b.Add(c)
    ensures b.Add(a.SaturatingSub(b)) == Max(a, b)
  {
    if a.AtLeast(b) {
      var c := DiskSize(a.bytes - b.bytes, a.inodes - b.inodes);
      assert a == b.Add(c);
      assert c != ZERO || a == b;
    }
  }

  /** `Max` is the least size that is at least both, `Min` the greatest that both are at least. */
  lemma Bounds(a: DiskSize, b: DiskSize, c: DiskSize)
    ensures c.AtLeast(Max(a, b)) <==> c.AtLeast(a) && c.AtLeast(b)
    ensures Min(a, b).AtLeast(c) <==> a.AtLeast(c) && b.AtLeast(c)
  {
  }
}
