/** A GPT pair byte by byte: what a conventional disk holds at which offset, in terms of its size alone. */
module GptLayout {
  import opened Bits
  import opened ByteBuffers
  import opened GptTable

  datatype RawState = RawState(protectiveMbr: seq<byte>, primaryHeader: seq<byte>, primaryEntries: seq<byte>,
                               backupEntries: seq<byte>, backupHeader: seq<byte>)

  /** What both headers say, whichever disk they lie on. */
  ghost predicate Conventional(h: seq<byte>) {
    && |h| == 512
    && h[0..8] == [0x45, 0x46, 0x49, 0x20, 0x50, 0x41, 0x52, 0x54]
    && LeValue(h[8..12]) == 0x0001_0000 && LeValue(h[12..16]) == 92
    && LeValue(h[80..84]) == 128 && LeValue(h[84..88]) == 128
  }

  /** The header in sector 1. */
  ghost predicate PrimaryLayout(h: seq<byte>, sectors: nat) {
    && Conventional(h)
    && LeValue(h[24..32]) == 1 && LeValue(h[32..40]) == sectors - 1
    && LeValue(h[40..48]) == 34 && LeValue(h[48..56]) == sectors - 34
    && LeValue(h[72..80]) == 2
  }

  /** The header in the last sector. */
  ghost predicate BackupLayout(h: seq<byte>, sectors: nat) {
    && Conventional(h)
    && LeValue(h[24..32]) == sectors - 1 && LeValue(h[32..40]) == 1
    && LeValue(h[40..48]) == 34 && LeValue(h[48..56]) == sectors - 34
    && LeValue(h[72..80]) == sectors - 33
  }

  /** Both checksums of a header: its own, over 92 bytes with its field at zero, and that of the entries. */
  ghost predicate Checked(h: seq<byte>, entries: seq<byte>)
    requires |h| == 512
  {
    && Crc32(h[0..16] + [0, 0, 0, 0] + h[20..92]) == LeValue(h[16..20])
    && Crc32(entries) == LeValue(h[88..92])
  }

  /** The 128 bytes of slot `i`. */
  function SlotAt(entries: seq<byte>, i: nat): (e: seq<byte>)
    requires |entries| == 16384 && i < 128
    ensures |e| == 128
  {
    entries[128 * i..128 * i + 128]
  }

  /** A slot that is all zero, or a partition with a type and an identity inside the usable range. */
  ghost predicate Acceptable(e: seq<byte>, sectors: nat)
    requires |e| == 128
  {
    AllZero(e) || (!AllZero(e[0..16]) && !AllZero(e[16..32])
                   && 34 <= LeValue(e[32..40]) <= LeValue(e[40..48]) <= sectors - 34)
  }

  /** Two slots of which one is empty, or that differ in identity and share no sector. */
  ghost predicate Separate(e: seq<byte>, f: seq<byte>)
    requires |e| == 128 && |f| == 128
  {
    AllZero(e) || AllZero(f)
    || (e[16..32] != f[16..32]
        && (LeValue(e[40..48]) < LeValue(f[32..40]) || LeValue(f[40..48]) < LeValue(e[32..40])))
  }

  ghost predicate EntriesLayout(entries: seq<byte>, sectors: nat)
    requires |entries| == 16384
  {
    && (forall i: nat :: i < 128 ==> Acceptable(SlotAt(entries, i), sectors))
    && forall i: nat, j: nat :: i < j < 128 ==> Separate(SlotAt(entries, i), SlotAt(entries, j))
  }

  /** A pair of copies that the editor takes. */
  ghost predicate Layout(s: RawState, sectors: nat) {
    && sectors >= 68
    && |s.protectiveMbr| == 512 && s.protectiveMbr[510] == 0x55 && s.protectiveMbr[511] == 0xAA
    && s.protectiveMbr[450] == 0xEE
    && |s.primaryEntries| == 16384 && s.backupEntries == s.primaryEntries
    && PrimaryLayout(s.primaryHeader, sectors) && Checked(s.primaryHeader, s.primaryEntries)
    && BackupLayout(s.backupHeader, sectors) && Checked(s.backupHeader, s.backupEntries)
    && !AllZero(s.primaryHeader[56..72]) && s.backupHeader[56..72] == s.primaryHeader[56..72]
    && EntriesLayout(s.primaryEntries, sectors)
  }

  /**
   * The protective record: the boot code as it was, one slot of type 0xEE from sector 1 over the whole disk or as far
   * as 32 bits reach, three clear slots, and the signature.
   */
  ghost predicate ProtectiveLayout(mbr: seq<byte>, original: seq<byte>, sectors: nat) {
    && |mbr| == 512 && |original| == 512 && mbr[..446] == original[..446]
    && mbr[446..458] == [0, 0xFE, 0xFF, 0xFF, 0xEE, 0xFE, 0xFF, 0xFF, 1, 0, 0, 0]
    && LeValue(mbr[458..462]) == (if sectors <= 0x1_0000_0000 then sectors - 1 else 0xFFFF_FFFF)
    && AllZero(mbr[462..510]) && mbr[510] == 0x55 && mbr[511] == 0xAA
  }

  /** What 128 bytes that are not all zero say about a partition. */
  ghost predicate Tells(e: seq<byte>, p: Partition)
    requires |e| == 128
  {
    && p.kind == e[0..16] && p.unique == e[16..32]
    && p.start == LeValue(e[32..40]) && p.end == LeValue(e[40..48]) && p.attributes == LeValue(e[48..56])
    && forall k: nat :: k < 36 ==> p.name[k] == LeValue(e[56 + 2 * k..58 + 2 * k])
  }

  /** The table that a pair of copies holds. */
  ghost predicate HoldsTable(s: RawState, sectors: nat, t: Table)
    requires |s.primaryHeader| == 512 && |s.primaryEntries| == 16384
  {
    && t.diskGuid == s.primaryHeader[56..72] && t.firstUsable == 34 && t.lastUsable == sectors - 34
    && forall i: nat :: i < 128 ==>
        if AllZero(SlotAt(s.primaryEntries, i)) then AllZero(t.partitions[i].kind)
        else Tells(SlotAt(s.primaryEntries, i), t.partitions[i])
  }
}
