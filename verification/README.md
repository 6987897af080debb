# ELAN touchpad firmware updater: a verified model of the IAP engine

`etphid_updater` flashes new firmware into an ELAN touchpad controller by
in-application programming (IAP). It can use a HID feature-report channel or a raw
I2C channel. This project models, in Dafny, the engine of `etphid_updater.c`:

- **Byte and register layer:** the little-endian word decoder, the register read and
  write frames, and how a HID reply is stripped of its 3-byte header.
- **Identification:** the IC type with its fallback register, the pattern, the
  firmware and IAP versions, the checksums, and the page-count table.
- **Preparation handshake:**
  - the optional reset;
  - the page and section geometry negotiated from IC type and IAP version;
  - the IAP-type write, read back and retried once;
  - the password and its acceptance bit.
- **Image:** the signature check, the IAP start address stored in the image, and the
  16-bit block checksum.
- **Block transfer:** the I2C and HID block frames, the status-read cadence driven by
  `fw_section_cnt`, the ten-attempt retry, and the update loop with its accumulated
  checksum.
- **Restoring normal operation:** `switch_to_ptpmode`.
- **The update sequence of `main`:** identification, signature check, firmware
  information, preparation, update, remote checksum, reset and restore.

The tool's globals are the fields of a `Session` class, and its operations are
methods that change them. The transport is a `Channel` object. It replays a script
of device answers, in which each transaction is either refused or answered with
bytes, and it records every frame it is handed. A ghost trace of register-level
operations (`Read`, `Write`, `Block`) is tied frame for frame to what the channel
received (`Session.Valid`). The contracts are stated against that trace. Pure rules
are functions in their own modules:

| module | contents |
|---|---|
| `Bytes` | bytes and words |
| `Transport` | frames and replies |
| `Identify` | decoders and the page table |
| `Handshake` | geometry and password |
| `Image` | signature, start address, checksum and block layout |
| `Cadence` | status-read cadence and retry shape |

`request_exit` becomes an `Aborted` outcome carrying the reason. In the code,
`switch_to_ptpmode` runs only after a signature mismatch and at the normal end;
every `request_exit` path exits without it, and so does the model.

## Model

| member | source | states |
|---|---|---|
| Bytes.LeBytes | etphid_updater.c:67-70 | the decoded word's low byte is `buf[0]` and its high byte `buf[1]` |
| Bytes.LeRoundTrip | etphid_updater.c:67-70 | decoding `[lo(v), hi(v)]` gives `v` back for every 16-bit `v` |
| Bytes.LeInjective | etphid_updater.c:67-70 | two buffers that decode to the same word agree on their first two bytes |
| Transport.Delivered | etphid_updater.c:510-536 | a refused transaction delivers nothing; an answered one delivers exactly the requested number of bytes, zero past the answer's end (the buffer is zeroed first) |
| Transport.Channel.Transfer | etphid_updater.c:513-534 | one transaction: the frame is recorded, one answer of the script is consumed, and the reply is what that answer delivers |
| Transport.ReadRequest | etphid_updater.c:573-587 | a register read is `[lo, hi]` on I2C and `[0x0D, 0x05, 0x03, lo, hi]` on HID; its last two bytes decode to the register |
| Transport.WriteRequest | etphid_updater.c:588-599 | a register write is `[lo(reg), hi(reg), lo(cmd), hi(cmd)]`, behind report id 0x0D on HID; the two words decode back to register and command |
| Transport.HidReadIsWriteTo0305 | etphid_updater.c:579-583 | on HID, reading a register is the same frame as writing its number to register 0x0305 |
| Transport.BlockFrame | etphid_updater.c:944-950 | a block frame is `section + 4` bytes on I2C and `section + 3` on HID |
| Transport.BlockFrameRoundTrip | etphid_updater.c:978-983 | parsing a block frame gives back exactly its data and checksum, on both interfaces |
| Transport.BlockFramesAreNotRegisterFrames | etphid_updater.c:946-947 | no block frame equals a register read frame, nor a HID register write frame |
| Transport.Payload | etphid_updater.c:527-536 | the HID payload is bytes `[3, 3+n)` of what the GET_FEATURE returned; on I2C it is the whole read |
| Transport.Reply | etphid_updater.c:504-571 | a transaction asking for `n` bytes yields `n` bytes exactly when the device answers, taken from offset 3 of the answer on HID and offset 0 on I2C |
| Transport.Received | etphid_updater.c:504-571 | the receive buffer after a transaction: the payload over its first `n` bytes when answered, unchanged when refused, the rest untouched |
| Transport.ReadWord | etphid_updater.c:628-631 | the word a register read leaves: answer bytes 3 and 4 on HID, 0 and 1 on I2C, or the stale word when the device refused |
| Identify.DecodeIcType | etphid_updater.c:743-751 | the IC type is the high byte of the 0x0103 word, or the low byte of the 0x0110 word when the first reads 0x0103 or 0xFFFF |
| Identify.IcTypeIsAReplyByte | etphid_updater.c:743-751 | in reply bytes: the IC type is the second byte of the 0x0103 reply, or the first byte of the 0x0110 reply |
| Identify.DecodePattern | etphid_updater.c:676-686 | the pattern is 0 for 0xFFFF and otherwise the high byte |
| Identify.LegacyPatternWords | etphid_updater.c:676-686 | the pattern is 0 exactly for 0xFFFF and for words below 0x100 |
| Identify.VersionRegister | etphid_updater.c:650-658 | the firmware version comes from 0x0102; the IAP version from 0x0111 when the pattern is 0, else from 0x0110 |
| Identify.DecodeVersion | etphid_updater.c:660-665 | the version is the whole word, except that a new-pattern IAP version is its high byte |
| Identify.NewPatternIapVersionIsSecondByte | etphid_updater.c:662-663 | a new-pattern IAP version is `rx_buf[1]` |
| Identify.PageCount | etphid_updater.c:755-796 | every page count lies in 512..2048, so `fw_size = count * 64` never exceeds the 131072-byte image buffer |
| Identify.PageCountIsTable | etphid_updater.c:759-794 | the page count is exactly the table (0x06/0x08: 512, 0x03/0x07/0x09-0x0C: 768, 0x0D: 896, 0x0E: 640, 0x10/0x14/0x15: 1024, 0x11: 1280, 0x13: 2048); every other type gets none |
| Handshake.Password | etphid_updater.c:900-903 | the password is 0xE15A exactly when the IC type is 0x0A, otherwise 0x1EA5 |
| Handshake.DeriveGeometry | etphid_updater.c:855-878 | the geometry is refused exactly when the section size is queried and the word read is 0; every other geometry has an even, non-zero section size |
| Handshake.GeometryShape | etphid_updater.c:855-878 | every page is 64, 128 or 512 bytes; its sections never overrun it; there is at least one section exactly when a section fits in a page; without the query it is one section per page |
| Handshake.ConfirmedIapTypes | etphid_updater.c:879-880 | the only values ever written to 0x0304 for confirmation are 0x40 and 0x100 |
| Handshake.ConfirmationCases | etphid_updater.c:858-880 | the IAP type is confirmed exactly on the negotiating branch when the section size is not queried or the queried word is 0x100 |
| Handshake.ZeroIapTypeReachesDivisionByZero | etphid_updater.c:866-869 | as written, IC 0x14 with IAP version 3 and a zero word at 0x0304 reaches a division by a zero section size |
| Image.CheckFwSignature | etphid_updater.c:1107-1121 | returns 0 exactly when the six bytes at the address are AA 55 CC 33 FF FF, and -1 otherwise |
| Image.IapAddr | etphid_updater.c:930-933 | the IAP start address is even and lies inside the image buffer |
| Image.CalcChecksum | etphid_updater.c:921-928 | the 16-bit accumulator equals the word sum of the block modulo 2^16; an odd length includes the byte just past it |
| Image.WordSumAppend | etphid_updater.c:925-926 | word sums add up over concatenation with an even-length tail |
| Image.BlockOffsets | etphid_updater.c:1039 | the loop visits the start address and then every section further while below `fw_size`; none when the start is at or past it |
| Image.AccumulateStep | etphid_updater.c:1042 | adding a block's 16-bit checksum to the 16-bit total equals reducing the plain sum |
| Image.TotalOfRun | etphid_updater.c:1039-1042 | blocks laid end to end from the start add up to the word sum of the bytes they cover |
| Image.UpdateTotalIsRangeSum | etphid_updater.c:1033-1050 | the update total is the word sum, modulo 2^16, of the whole range from the start address to the end of the last block |
| Image.UnalignedStartOverrunsBuffer | etphid_updater.c:1039-1041 | as written, a start word of 0xFFFF on IC 0x13 makes the first block read past the image buffer |
| Cadence.AttemptResult | etphid_updater.c:952-974 | an attempt returns -1 when the transfer failed, the status word when the status read shows bit 5 or bit 4, 0 otherwise |
| Cadence.RetryOutcome | etphid_updater.c:1020-1031 | the retry loop returns 0 exactly when some attempt succeeded; otherwise ten attempts all failed and the tenth's result is returned |
| Cadence.TenthAttemptCanSucceed | etphid_updater.c:1023-1026 | nine failures followed by a success is a valid retry run, which returns 0 |
| Cadence.StatusOncePerPage | etphid_updater.c:957-973 | with `n` sections per page and no failures, the status is read after block `j` exactly when `j + 1` is a multiple of `n`, and the counter is then `|blocks| % n + 1` |
| Cadence.NoSectionsNeverChecked | etphid_updater.c:1038 | when a section is larger than a page there are 0 sections per page; the counter, started at 1, never reaches 0 and the status is never read |
| Cadence.RetryAfterPageErrorUnchecked | etphid_updater.c:966-970 | after a status read that reports an error the counter is 1, so the retried last section of a multi-section page is sent without a status read |
| Cadence.WholePagesAlwaysChecked | etphid_updater.c:957 | when whole pages are written, every block that goes through is followed by a status read |
| Updater.Staged | etphid_updater.c:607-612 | the transmit buffer holds the register number in bytes 0-1 and the command word in bytes 2-3, the rest unchanged |
| Updater.ProgressStep | etphid_updater.c:1040-1042 | one more successful block keeps the blocks laid out in order and the checksum equal to their 16-bit total |
| Updater.RetryStep | etphid_updater.c:1023-1024 | one more attempt, whose status read follows the counter, extends the trace by its operations and keeps the pacing and the counter |
| Updater.LoopStep | etphid_updater.c:1039-1047 | one turn of the update loop either continues with the block recorded and the total extended, or stops with `UpdateFailed` at that offset and the block's result |
| Updater.Session.constructor | etphid_updater.c:56-65 | a fresh session: empty trace, globals zero and versions -1, zeroed buffers, the image as loaded |
| Updater.Session.WireIsTrace | etphid_updater.c:628-636 | the frames on the wire are exactly the encodings of the trace, in order |
| Updater.Session.HidSendCmd | etphid_updater.c:504-540 | sends the frame, then asks for `n + 3` bytes when a reply is wanted; returns 0 exactly when the device answered; the receive buffer gets the payload after the 3-byte header |
| Updater.Session.I2cSendCmd | etphid_updater.c:542-571 | sends the frame, then reads `n` bytes into the receive buffer when a reply is wanted; returns 0 exactly when the device answered |
| Updater.Session.HidReadCmd | etphid_updater.c:573-587 | puts `[0x0D, 0x05, 0x03, tx[0], tx[1]]` on the wire and fills the receive buffer from the reply |
| Updater.Session.HidWriteCmd | etphid_updater.c:588-599 | puts `[0x0D, tx[0..3]]` on the wire and leaves the receive buffer alone |
| Updater.Session.WriteAndRead | etphid_updater.c:603-626 | stages the register and command in the transmit buffer and sends the write frame or the read frame of the session's interface |
| Updater.Session.ReadCmd | etphid_updater.c:628-631 | a 2-byte register read: records `Read(reg, w)` where `w` is the word then in the receive buffer, stale when the device refused |
| Updater.Session.WriteCmd | etphid_updater.c:633-636 | a register write: records `Write(reg, cmd, ok)` where `ok` is whether the device took it; the receive buffer is unchanged |
| Updater.Session.GetIapCtrl | etphid_updater.c:733-737 | reads 0x0310 and returns the word recorded; nothing else changes |
| Updater.Session.GetIapIcBodyInterfaceType | etphid_updater.c:738-742 | reads 0x0110 and returns the word recorded |
| Updater.Session.GetIapType | etphid_updater.c:805-809 | reads 0x0304 and returns the word recorded |
| Updater.Session.GetChecksum | etphid_updater.c:668-673 | reads the register `ChecksumRegister` names: 0x0315 for the IAP checksum, 0x030F for the firmware checksum |
| Updater.Session.GetPattern | etphid_updater.c:676-686 | reads 0x0100 and returns its decoded pattern |
| Updater.Session.GetVersion | etphid_updater.c:650-666 | reads the register the pattern selects and returns the decoded version |
| Updater.Session.GetFwInfo | etphid_updater.c:687-706 | its operations are exactly the five reads of `InfoReads` (pattern, firmware checksum, IAP checksum, firmware version, IAP version from the register the pattern selects); the globals become their decoding (`InfoAfter`); returns the firmware checksum read |
| Updater.Session.GetIcType | etphid_updater.c:743-751 | reads 0x0103, and 0x0110 only when the first word is unusable; returns the decoded IC type |
| Updater.Session.GetIcPageCount | etphid_updater.c:755-796 | stores the IC type; returns its page count, or aborts with `UnsupportedIcType` exactly when the table has none |
| Updater.Session.ResetTp | etphid_updater.c:797-800 | writes 0xF0F0 to 0x0314 |
| Updater.Session.DisableReport | etphid_updater.c:829-835 | writes 0x0801 to 0x0314 once, whatever the outcome |
| Updater.Session.WriteRetried | etphid_updater.c:815-820 | writes a command and writes it once more exactly when the first write failed |
| Updater.Session.SwitchToPtpMode | etphid_updater.c:813-827 | its operations satisfy `PtpRestore`: enable the report (0x0314 ← 0x0800), then select PTP mode (0x0306 ← 0x0003), each written again exactly when its first write failed; nothing it writes touches the flash |
| Updater.Session.ConfirmIapType | etphid_updater.c:879-892 | writes the value to 0x0304 and reads it back, and once more on a mismatch; `ok` is whether the last word read matched |
| Updater.Session.SetGeometry | etphid_updater.c:855-878 | sets page size, section size and number of sections to the derived geometry (reading 0x0304 only when the section size is queried), or aborts with `ZeroSectionSize` exactly when none is derived |
| Updater.Session.NegotiateGeometry | etphid_updater.c:855-896 | the geometry step and the confirmation when the code makes one; succeeds exactly when a geometry is derived and confirmed, and the abort reason says which failed |
| Updater.Session.PrepareForUpdate | etphid_updater.c:837-916 | reads the control word and resets when it is not 0x0200; negotiates the geometry; writes the IC's password and reads the control word again; succeeds exactly when bit 7 is then set |
| Updater.Session.CheckPageStatus | etphid_updater.c:957-973 | reads the status exactly when the cadence asks; the counter goes back to 1 after a read and up by one otherwise; returns the status word on bit 5 or 4 |
| Updater.Session.I2cWriteFwBlock | etphid_updater.c:942-975 | sends `[0x01, 0x06] ++ data ++ checksum`; on success, the status step; the attempt's operations are recorded |
| Updater.Session.HidWriteFwBlock | etphid_updater.c:976-1010 | sends `[0x0B] ++ data ++ checksum`; on success, the status step |
| Updater.Session.WriteFwBlockOnce | etphid_updater.c:1012-1018 | one attempt through the session interface's writer |
| Updater.Session.WriteFwBlock | etphid_updater.c:1020-1031 | up to ten paced attempts of a valid retry run; returns the last one's result; the counter follows the attempts |
| Updater.Session.SendBlockAt | etphid_updater.c:1040-1041 | the section at the offset goes through the retry loop with its own block checksum |
| Updater.Session.UpdateBlock | etphid_updater.c:1039-1047 | one turn of the loop: continues with the total extended when the block went through, stops with `UpdateFailed` otherwise |
| Updater.Session.UpdateFirmware | etphid_updater.c:1033-1050 | visits the block offsets in order; completes exactly when every block was sent and succeeded, returning their 16-bit total; otherwise stops at the failing block or before a block outside the image; the trace is exactly the blocks' attempts, paced from a counter of 1 |
| Updater.OpeningOf | etphid_updater.c:1174-1175 | the report-disable write followed by the IC-type reads of `elan_get_ic_type` is an `Opening` for the type those words decode to |
| Updater.OpeningUntouched | etphid_updater.c:1174-1175 | an opening writes nothing to the flash |
| Updater.RetriedIsTries | etphid_updater.c:815-826 | a command written once and again only after a failed first write: `Tries` always has that shape, and every sequence of that shape is `Tries` of its own first and last results |
| Updater.RestoreOf | etphid_updater.c:813-827 | the report-enable tries followed by the PTP-mode tries are a `PtpRestore`, whatever each write returned |
| Updater.RestoreUntouched | etphid_updater.c:813-827 | restoring PTP mode takes two to four writes and none touches the flash |
| Updater.PreparationOf | etphid_updater.c:837-916 | the control read, the reset taken exactly when the control word is not 0x0200, the geometry step, and the password write with the control read that follows it exactly when the run gets that far, together with the result, make up a `Preparation` |
| Updater.FinishingOf | etphid_updater.c:1202-1210 | the remote-checksum read, the reset write, the five firmware-information reads and a PTP restore make up a `Finishing` |
| Updater.Session.CheckImage | etphid_updater.c:1177-1185 | sets `fw_page_count`, `fw_size = count * 64` and `fw_signature_address = count * 64 - 6`; the signature passes exactly when the image holds it; on a pass nothing is sent, on a mismatch the only operations are a `PtpRestore` |
| Updater.Session.OpenImage | etphid_updater.c:1174-1185 | the operations are an `Opening` whose decoded words give the stored IC type, then a `PtpRestore` exactly when the run ends with `SignatureMismatch` and nothing otherwise; it ends with `UnsupportedIcType` exactly when that type has no page count and with `SignatureMismatch` exactly when the signature is missing |
| Updater.Session.FinishUpdate | etphid_updater.c:1202-1210 | its operations are a `Finishing`: the IAP-checksum read whose word is the remote checksum, the reset, the five firmware-information reads, whose decoding the globals take, and a `PtpRestore`; completes with the local checksum it was given |
| Updater.Session.WriteImage | etphid_updater.c:1199-1210 | the update's result decides the outcome; the trace grows by the blocks' operations, then by nothing after an aborted update and by a `Finishing` after a completed one |
| Updater.Session.PrepareDevice | etphid_updater.c:1188-1198 | the trace grows by the five firmware-information reads, then by a `Preparation` for the stored IC type, the IAP version decoded from the fifth read and the IAP-type word read; on success the session's geometry is the one derived from those |
| Updater.Session.ProgramDevice | etphid_updater.c:1188-1210 | a failed preparation ends the run with its reason and nothing after it; otherwise the blocks at the derived geometry follow, and the outcome is the update's result, with nothing after an abort and a `Finishing` after completion |
| Updater.Session.RunUpdate | etphid_updater.c:1174-1214 | the whole run: an `Opening`; unsupported IC type or signature mismatch end it there, after a `PtpRestore` only on the mismatch, with the flash untouched; otherwise the firmware-information reads, a `Preparation`, the blocks at the geometry derived from the IC type, the IAP version read and the IAP-type word, and a `Finishing` after a completed update; the sizes follow the page count |

## Left out

- Command-line parsing, usage text and the query-only modes (`get_current_version`,
  `get_module_id`, the version print) are string handling around the engine.
- Device discovery and opening (`scan_i2c`, `scan_hid`, `assign_*`, `init_elan_tp`)
  are filesystem I/O. The interface is a constructor parameter. The tool's
  "Unknown interface" takes the I2C branch of every dispatch and is not a separate
  case here.
- Loading the firmware file (`fopen`, `fseek`, `fread`) is file I/O. The image is a
  constructor parameter of exactly `MAX_FW_SIZE` bytes. A file larger than the
  buffer, which `fread` would write past, is not modelled.
- The `ioctl`, `read` and `write` calls are foreign calls. They are a `Channel`
  whose script decides, per transaction, refusal or an answer.
  - A short I2C `read`, which leaves the tail of `rx_buf` stale, is modelled as a
    zero-filled answer.
- `usleep`, `printf`, `fflush` and `close` are timing and output. The end-of-run
  checksum comparison is only printed by the tool. The model returns both checksums
  in `Completed`.
- The debug path `hid_read_block` and `pretty_print_buffer`, run when
  `extended_i2c_exercise` is set, is left out.
- Process termination in `request_exit` is an `Aborted` outcome. As in the code,
  nothing is restored after an abort.
- The `ctrl < 0` tests of `elan_prepare_for_update` cannot fire, because
  `le_bytes_to_int` is never negative. They are omitted.
- The `switch_to_ptpmode(int)` variant is commented out in the source and is not
  modelled.
- Updater.Session.GetIapCtrl: states the word it returns as recorded in the trace. It does not restate its link to the receive buffer, which `ReadCmd` states.
- Updater.Session.GetIapIcBodyInterfaceType: as for `GetIapCtrl`, the link to the receive buffer is stated only by `ReadCmd`.
- Updater.Session.GetIapType: as for `GetIapCtrl`, the link to the receive buffer is stated only by `ReadCmd`.
- Updater.Session.GetChecksum: as for `GetIapCtrl`, the link to the receive buffer is stated only by `ReadCmd`.
- Updater.Session.RunUpdate: states every operation of the run and the IC type and sizes it
  stores. It does not carry up the pattern and versions of the final re-read (stated by
  `FinishUpdate`), the final section counter (stated by `UpdateFirmware`), the
  transmit-buffer bytes or which answers of the script were consumed (stated only by
  `WriteAndRead` and `Channel.Transfer`).
- Updater.Session.WriteImage: does not carry up the pattern and versions of the final
  re-read, which `FinishUpdate` states.
- Updater.Session.ProgramDevice: as for `WriteImage`, the globals after the final re-read
  are stated only by `FinishUpdate`.

## Findings

| source | as written | input that shows it | evidently intended | confidence | as-written member | corrected member |
|---|---|---|---|---|---|---|
| etphid_updater.c:1039-1041 | the loop reads a whole section at every offset below `fw_size`, starting from the address stored in the image, with no check against the 131072-byte `fw_data` | IC 0x13 (2048 pages, `fw_size` 131072) and image bytes 0x106-0x107 = FF FF: the first block starts at 131070 and runs past the buffer | stop before a block that does not fit in the image | high, not executed | Image.UnalignedStartOverrunsBuffer | Updater.Session.UpdateFirmware |
| etphid_updater.c:866-869 | `fw_section_size = elan_get_iap_type() * 2`, then `fw_page_size / fw_section_size` | IC 0x14, IAP version 3, register 0x0304 reads 0: division by zero | refuse a zero section size | high, not executed | Handshake.ZeroIapTypeReachesDivisionByZero | Handshake.DeriveGeometry |
