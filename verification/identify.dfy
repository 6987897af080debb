/** Device identification: the registers that name the controller and its firmware,
    how their words are decoded, and the page-count table keyed by IC type. */
module Identify {
  import opened Bytes
  import opened Transport

  const HidIdCmd: nat := 0x0100            // ETP_GET_HID_ID_CMD, read for the pattern
  const FwVersionCmd: nat := 0x0102        // ETP_I2C_FW_VERSION_CMD
  const OsmVersionCmd: nat := 0x0103       // ETP_I2C_OSM_VERSION_CMD
  const IapIcBodyCmd: nat := 0x0110        // ETP_I2C_IAP_ICBODY_CMD
  const NewIapVersionCmd: nat := 0x0110    // ETP_I2C_NEW_IAP_VERSION_CMD
  const IapVersionCmd: nat := 0x0111       // ETP_I2C_IAP_VERSION_CMD
  const FwChecksumCmd: nat := 0x030F       // ETP_I2C_FW_CHECKSUM_CMD
  const IapChecksumCmd: nat := 0x0315      // ETP_I2C_IAP_CHECKSUM_CMD

  const FwPageSize: nat := 64
  const MaxFwPageCount: nat := 2048
  const MaxFwSize: nat := MaxFwPageCount * FwPageSize

  // ----- IC type (elan_get_ic_type) -----

  /** The OSM version word is not usable when it echoes its own register number or reads all ones. */
  predicate IcTypeUnreadable(primary: u16)
  {
    primary == OsmVersionCmd || primary == 0xFFFF
  }

  /** The IC type from the OSM version word, falling back to the IC-body word when that one is unusable. */
  function DecodeIcType(primary: u16, fallback: u16): (t: byte)
    ensures IcTypeUnreadable(primary) ==> t == Lo(fallback)
    ensures !IcTypeUnreadable(primary) ==> t == Hi(primary)
  {
    if IcTypeUnreadable(primary) then fallback % 0x100 else (primary / 0x100) % 0x100
  }

  /** In terms of the reply bytes: the IC type is the second byte of the 0x0103 reply, or the first
      byte of the 0x0110 reply when the 0x0103 word is unusable. */
  lemma IcTypeIsAReplyByte(primary: seq<byte>, fallback: seq<byte>)
    requires |primary| == 2 && |fallback| == 2
    ensures DecodeIcType(LeBytesToInt(primary), LeBytesToInt(fallback))
            == if IcTypeUnreadable(LeBytesToInt(primary)) then fallback[0] else primary[1]
  {
  }

  // ----- pattern (elan_get_patten) -----

  /** The pattern generation: 0 for an all-ones word, otherwise the high byte. */
  function DecodePattern(v: u16): (p: byte)
    ensures v != 0xFFFF ==> p == Hi(v)
  {
    if v == 0xFFFF then 0 else v / 0x100
  }

  /** A device is of the legacy pattern exactly when its word reads all ones or has a zero high byte. */
  lemma LegacyPatternWords(v: u16)
    ensures DecodePattern(v) == 0 <==> (v == 0xFFFF || v < 0x100)
  {
  }

  // ----- versions (elan_get_version) and checksums (elan_get_checksum) -----

  /** Which register holds the version: firmware 0x0102; IAP 0x0111 (legacy) or 0x0110 (new pattern). */
  function VersionRegister(isIap: bool, pattern: int): (reg: nat)
    ensures !isIap ==> reg == FwVersionCmd
    ensures isIap ==> reg == (if pattern == 0 then IapVersionCmd else NewIapVersionCmd)
  {
    if !isIap then FwVersionCmd
    else if pattern == 0 then IapVersionCmd
    else NewIapVersionCmd
  }

  /** The version decoded from the word read: the whole word, except that a new-pattern
      device reports its IAP version in the high byte alone (`rx_buf[1]`). */
  function DecodeVersion(isIap: bool, pattern: int, word: u16): (v: int)
    ensures 0 <= v < Word
    ensures !(isIap && pattern >= 1) ==> v == word
    ensures isIap && pattern >= 1 ==> v == Hi(word) < 0x100
  {
    if pattern >= 1 then (if isIap then word / 0x100 else word) else word
  }

  /** The new-pattern IAP version is the second byte of the reply. */
  lemma NewPatternIapVersionIsSecondByte(pattern: int, rx: seq<byte>)
    requires |rx| >= 2 && pattern >= 1
    ensures DecodeVersion(true, pattern, LeBytesToInt(rx)) == rx[1]
  {
  }

  /** The register `elan_get_checksum` reads: the IAP checksum or the firmware checksum. */
  function ChecksumRegister(isIap: bool): nat
  {
    if isIap then IapChecksumCmd else FwChecksumCmd
  }

  // ----- page count (elan_get_ic_page_count) -----

  /** The page count of each supported IC type; any other type is refused rather than guessed. */
  function PageCount(ic: byte): (r: Option<nat>)
    ensures r.Some? ==> 512 <= r.value <= MaxFwPageCount
    ensures r.Some? ==> r.value * FwPageSize <= MaxFwSize
  {
    if ic == 0x06 || ic == 0x08 then Some(512)
    else if ic == 0x03 || ic == 0x07 || ic == 0x09 || ic == 0x0A || ic == 0x0B || ic == 0x0C then Some(768)
    else if ic == 0x0D then Some(896)
    else if ic == 0x0E then Some(640)
    else if ic == 0x10 then Some(1024)
    else if ic == 0x11 then Some(1280)
    else if ic == 0x13 then Some(2048)
    else if ic == 0x14 || ic == 0x15 then Some(1024)
    else None
  }

  /** The same table written as a map. */
  const PageTable: map<byte, nat> :=
    map[0x06 := 512, 0x08 := 512,
        0x03 := 768, 0x07 := 768, 0x09 := 768, 0x0A := 768, 0x0B := 768, 0x0C := 768,
        0x0D := 896, 0x0E := 640,
        0x10 := 1024, 0x14 := 1024, 0x15 := 1024,
        0x11 := 1280, 0x13 := 2048]

  /** The page-count decision is exactly the table: a listed type gets its count, nothing else gets one. */
  lemma PageCountIsTable(ic: byte)
    ensures PageCount(ic) == if ic in PageTable then Some(PageTable[ic]) else None
  {
  }
}
