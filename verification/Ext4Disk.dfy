/** Disk blocks and unsigned division shared by the ext4 modules (kernel/arch/x86_64/ext4.c). */
module Ext4Disk {
  import opened Bytes

  /** Readable blocks; reading any other block fails. */
  type Disk = map<nat, seq<byte>>

  datatype Fs = Fs(disk: Disk, blockSize: nat) {
    ghost predicate Valid() {
      && 1024 <= blockSize <= 65536 && blockSize % 4 == 0
      && (forall b :: b in disk ==> |disk[b]| == blockSize)
    }
  }

  /** Unsigned division and remainder, with the law that defines them. */
  function Quot(a: nat, d: nat): (q: nat)
    requires d > 0
    ensures q * d <= a < q * d + d
  {
    QuotLaw(a, d);
    a / d
  }

  function Rem(a: nat, d: nat): (r: nat)
    requires d > 0
    ensures r < d && a == Quot(a, d) * d + r
  {
    QuotLaw(a, d);
    a % d
  }

  lemma {:induction false} QuotLaw(a: nat, d: nat)
    requires d > 0
    ensures a / d >= 0 && (a / d) * d <= a < (a / d) * d + d && a == (a / d) * d + a % d
  {
    assert a == d * (a / d) + a % d;
  }
}
