/** The firmware image: its signature, the IAP start address stored inside it, the
    per-block checksum and the layout of the blocks the update sends. */
module Image {
  import opened Bytes
  import opened Transport
  import opened Identify

  const FwSignatureSize: nat := 6
  const Signature: seq<byte> := [0xAA, 0x55, 0xCC, 0x33, 0xFF, 0xFF]
  /** Word index inside the image that holds the IAP start address (ETP_IAP_START_ADDR). */
  const IapStartAddr: nat := 0x0083

  /** Where the signature sits for an IC with `pageCount` pages: the last six bytes of the flash. */
  function SignatureAddress(pageCount: nat): int
  {
    pageCount * FwPageSize - FwSignatureSize
  }

  predicate SignatureOk(fw: seq<byte>, address: nat)
    requires address + FwSignatureSize <= |fw|
  {
    fw[address..address + FwSignatureSize] == Signature
  }

  /** `check_fw_signature`: 0 when the six bytes at `address` are the signature, -1 at the first mismatch. */
  method CheckFwSignature(fw: seq<byte>, address: nat) returns (r: int)
    requires address + FwSignatureSize <= |fw|
    ensures r == 0 || r == -1
    ensures r == 0 <==> SignatureOk(fw, address)
  {
    for i := 0 to FwSignatureSize
      invariant fw[address..address + i] == Signature[..i]
    {
      if fw[address + i] != Signature[i] {
        assert fw[address..address + FwSignatureSize][i] != Signature[i];
        return -1;
      }
      assert fw[address..address + i + 1] == fw[address..address + i] + [fw[address + i]];
    }
    return 0;
  }

  /** `elan_get_iap_addr`: twice the little-endian word at word index 0x83 of the image.
      It is an even byte offset inside the largest image buffer. */
  function IapAddr(fw: seq<byte>): (a: nat)
    requires |fw| >= 2 * IapStartAddr + 2
    ensures a % 2 == 0 && a < MaxFwSize
  {
    LeBytesToInt(fw[IapStartAddr * 2..]) * 2
  }

  // ----- block checksum (elan_calc_checksum) -----

  /** The sum of the little-endian words of a byte sequence, taken two bytes at a time from the
      end (a lone leading byte of an odd-length sequence is not counted; the update only sums
      even lengths). */
  function WordSum(s: seq<byte>): nat
    decreases |s|
  {
    if |s| < 2 then 0 else WordSum(s[..|s| - 2]) + LeBytesToInt(s[|s| - 2..])
  }

  /** The 16-bit checksum of a block: its word sum modulo 2^16. */
  function BlockChecksum(block: seq<byte>): u16
    requires |block| % 2 == 0
  {
    WordSum(block) % Word
  }

  /** Word sums add up over concatenation. */
  lemma {:induction false} WordSumAppend(a: seq<byte>, b: seq<byte>)
    requires |b| % 2 == 0
    ensures WordSum(a + b) == WordSum(a) + WordSum(b)
    decreases |b|
  {
    if |b| == 0 {
      assert a + b == a;
    } else {
      var b' := b[..|b| - 2];
      assert (a + b)[..|a + b| - 2] == a + b';
      assert (a + b)[|a + b| - 2..] == b[|b| - 2..];
      WordSumAppend(a, b');
    }
  }

  /** `elan_calc_checksum(data, length)`: a 16-bit accumulator of the words at even offsets
      below `length`. An odd length reads one byte past it, as the C loop does. */
  method CalcChecksum(data: seq<byte>, length: nat) returns (checksum: u16)
    requires length + length % 2 <= |data|
    ensures checksum == BlockChecksum(data[..length + length % 2])
  {
    checksum := 0;
    var i := 0;
    while i < length
      invariant 0 <= i <= length + length % 2 && i % 2 == 0
      invariant checksum == BlockChecksum(data[..i])
    {
      // ((uint16_t)data[i+1] << 8) | data[i]: the two bytes do not overlap, so `|` is `+`
      var word := data[i + 1] as int * 0x100 + data[i] as int;
      assert data[..i + 2][..i] == data[..i];
      assert data[..i + 2][i..] == [data[i], data[i + 1]];
      AddMod(WordSum(data[..i]), word);
      checksum := (checksum + word) % Word;
      i := i + 2;
    }
  }

  // ----- block layout and the update total (elan_update_firmware) -----

  /** The offsets the update loop visits: `start`, `start + section`, ... while below `fwSize`. */
  function BlockOffsets(start: nat, fwSize: nat, section: nat): (offs: seq<nat>)
    requires section > 0
    ensures |offs| == 0 <==> start >= fwSize
    ensures |offs| > 0 ==> offs[0] == start && offs[|offs| - 1] + section >= fwSize
    ensures forall k :: 0 < k < |offs| ==> offs[k] == offs[k - 1] + section
    ensures forall k :: 0 <= k < |offs| ==> start <= offs[k] < fwSize
    decreases if start < fwSize then fwSize - start else 0
  {
    if start >= fwSize then [] else [start] + BlockOffsets(start + section, fwSize, section)
  }

  /** Where a run of blocks ends: just past its last block. */
  function RunEnd(start: nat, offs: seq<nat>, section: nat): nat
  {
    if |offs| == 0 then start else offs[|offs| - 1] + section
  }

  /** Every block lies inside the buffer. */
  predicate BlocksFit(fw: seq<byte>, offs: seq<nat>, section: nat)
  {
    forall k :: 0 <= k < |offs| ==> offs[k] + section <= |fw|
  }

  /** The word sums of the blocks at `offs`, added up without reduction. */
  function BlocksSum(fw: seq<byte>, offs: seq<nat>, section: nat): nat
    requires BlocksFit(fw, offs, section)
    decreases |offs|
  {
    if |offs| == 0 then 0
    else
      var o := offs[|offs| - 1];
      BlocksSum(fw, offs[..|offs| - 1], section) + WordSum(fw[o..o + section])
  }

  /** The 16-bit total of the blocks at `offs`: what a 16-bit accumulator of their checksums holds. */
  function Total(fw: seq<byte>, offs: seq<nat>, section: nat): u16
    requires BlocksFit(fw, offs, section)
  {
    BlocksSum(fw, offs, section) % Word
  }

  /** Adding a block's 16-bit checksum to a 16-bit total of a word sum gives the 16-bit total of
      the two sums together. */
  lemma AccumulateStep(total: int, prev: int, block: int)
    requires total == prev % Word
    ensures (total + block % Word) % Word == (prev + block) % Word
  {
    AddMod(prev, block % Word);
    AddMod(block, prev);
  }

  /** The bytes a run covers, one block more. */
  lemma {:induction false} RangeSnoc(fw: seq<byte>, start: nat, lo: nat, hi: nat)
    requires start <= lo <= hi <= |fw| && (hi - lo) % 2 == 0
    ensures WordSum(fw[start..hi]) == WordSum(fw[start..lo]) + WordSum(fw[lo..hi])
  {
    assert fw[start..hi] == fw[start..lo] + fw[lo..hi];
    WordSumAppend(fw[start..lo], fw[lo..hi]);
  }

  /** Blocks laid end to end from `start` add up to the word sum of the bytes they cover. */
  lemma {:induction false} TotalOfRun(fw: seq<byte>, offs: seq<nat>, start: nat, section: nat)
    requires section % 2 == 0 && start <= |fw|
    requires BlocksFit(fw, offs, section)
    requires |offs| > 0 ==> offs[0] == start
    requires forall k :: 0 < k < |offs| ==> offs[k] == offs[k - 1] + section
    ensures start <= RunEnd(start, offs, section) <= |fw|
    ensures BlocksSum(fw, offs, section) == WordSum(fw[start..RunEnd(start, offs, section)])
    decreases |offs|
  {
    var n := |offs|;
    if n == 0 {
      assert fw[start..start] == [];
    } else {
      var init := offs[..n - 1];
      var lo, hi := offs[n - 1], offs[n - 1] + section;
      assert BlocksFit(fw, init, section);
      TotalOfRun(fw, init, start, section);
      assert RunEnd(start, init, section) == lo by {
        if n > 1 {
          assert offs[n - 1] == offs[n - 2] + section;
        }
      }
      RangeSnoc(fw, start, lo, hi);
    }
  }

  /** The checksum the update accumulates is the word-pair sum, modulo 2^16, of the whole range
      from the start address to the end of the last block. */
  lemma UpdateTotalIsRangeSum(fw: seq<byte>, start: nat, fwSize: nat, section: nat)
    requires section > 0 && section % 2 == 0 && start <= |fw|
    requires BlocksFit(fw, BlockOffsets(start, fwSize, section), section)
    ensures var end := RunEnd(start, BlockOffsets(start, fwSize, section), section);
      start <= end <= |fw| &&
      Total(fw, BlockOffsets(start, fwSize, section), section) == WordSum(fw[start..end]) % Word
  {
    var offs := BlockOffsets(start, fwSize, section);
    assert |offs| > 0 ==> offs[0] == start;
    TotalOfRun(fw, offs, start, section);
  }

  /** As written, the loop visits every offset below `fw_size` and reads a whole section there:
      an image whose start word is 0xFFFF on a 2048-page IC with 64-byte sections makes the
      first block run past the 131072-byte buffer. */
  lemma UnalignedStartOverrunsBuffer(fw: seq<byte>)
    requires |fw| == MaxFwSize
    requires fw[2 * IapStartAddr] == 0xFF && fw[2 * IapStartAddr + 1] == 0xFF
    ensures PageCount(0x13) == Some(2048)
    ensures IapAddr(fw) == 131070
    ensures !BlocksFit(fw, BlockOffsets(IapAddr(fw), 2048 * FwPageSize, 64), 64)
  {
    var offs := BlockOffsets(IapAddr(fw), 2048 * FwPageSize, 64);
    assert offs[0] == 131070;
  }
}
