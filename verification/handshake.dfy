/** The preparation handshake: the control word, the reset, the page geometry negotiated
    from IC type and IAP version, and the IAP password. */
module Handshake {
  import opened Bytes
  import opened Transport

  const IapCtrlCmd: nat := 0x0310       // ETP_I2C_IAP_CTRL_CMD
  const IapResetCmd: nat := 0x0314      // ETP_I2C_IAP_RESET_CMD, also the report-mode switch
  const IapReset: nat := 0xF0F0         // ETP_I2C_IAP_RESET
  const IapCmd: nat := 0x0311           // ETP_I2C_IAP_CMD, takes the password
  const IapTypeCmd: nat := 0x0304       // ETP_I2C_IAP_TYPE_CMD
  const IapPassword: u16 := 0x1EA5      // ETP_I2C_IAP_PASSWORD
  const IapPassword0A: u16 := 0xE15A    // ETP_I2C_IAP_0A_PASSWORD
  const IapLastFit: nat := 0x0200       // ETP_FW_IAP_LAST_FIT, bit 9
  const IapCheckPw: nat := 0x0080       // ETP_FW_IAP_CHECK_PW, bit 7
  const ReportEnable: nat := 0x0800     // ETP_I2C_ENABLE_REPORT
  const ReportDisable: nat := 0x0801    // ETP_I2C_DISABLE_REPORT
  const PtpModeCmd: nat := 0x0306
  const PtpMode: nat := 0x0003

  /** The controller is reset first unless its control word says the last write completed. */
  predicate NeedsReset(ctrl: u16)
  {
    ctrl % Word != IapLastFit
  }

  /** The controller took the password when bit 7 of its control word is set. */
  predicate PasswordAccepted(ctrl: u16)
  {
    HasBit(ctrl, IapCheckPw)
  }

  /** The IAP password: IC type 0x0A has its own, every other type shares one. */
  function Password(ic: byte): (pw: u16)
    ensures pw == IapPassword0A <==> ic == 0x0A
    ensures pw == IapPassword <==> ic != 0x0A
  {
    if ic % 0x100 == 0x0A then IapPassword0A else IapPassword
  }

  // ----- page geometry -----

  /** Page size, section size and number of sections per page (`fw_page_size`,
      `fw_section_size`, `fw_no_of_sections`). */
  datatype Geometry = Geometry(pageSize: nat, sectionSize: nat, sections: nat)

  const DefaultGeometry: Geometry := Geometry(64, 64, 1)

  /** IC types from 0x10 on with an IAP version of at least 1 negotiate their geometry. */
  predicate UsesIapGeometry(ic: byte, iapVersion: int)
  {
    ic >= 0x10 && iapVersion >= 1
  }

  /** IC types 0x14 and 0x15 with IAP version 2 or more have 512-byte pages. */
  predicate LargePages(ic: byte, iapVersion: int)
  {
    UsesIapGeometry(ic, iapVersion) && iapVersion >= 2 && (ic == 0x14 || ic == 0x15)
  }

  /** From IAP version 3 on, their section size is read from register 0x0304. */
  predicate QueriesSectionSize(ic: byte, iapVersion: int)
  {
    LargePages(ic, iapVersion) && iapVersion >= 3
  }

  /** The section size the code derives from the word read from register 0x0304. */
  function QueriedSectionSize(iapType: u16): nat
  {
    iapType * 2
  }

  /** `fw_page_size / fw_section_size`, as the code computes it; the code never checks the divisor. */
  function SectionsPerPage(pageSize: nat, sectionSize: nat): nat
    requires sectionSize != 0
  {
    pageSize / sectionSize
  }

  /** The geometry for an IC type and IAP version; `iapType` is the word read from 0x0304,
      which only matters when the section size is queried. No geometry (an abort) when that
      word would make the section size zero. */
  function DeriveGeometry(ic: byte, iapVersion: int, iapType: u16): (g: Option<Geometry>)
    ensures g.None? <==> QueriesSectionSize(ic, iapVersion) && iapType == 0
    ensures g.Some? ==> 0 < g.value.sectionSize && g.value.sectionSize % 2 == 0
  {
    if !UsesIapGeometry(ic, iapVersion) then Some(DefaultGeometry)
    else if LargePages(ic, iapVersion) then
      if iapVersion >= 3 then
        var section := QueriedSectionSize(iapType);
        if section == 0 then None else Some(Geometry(512, section, SectionsPerPage(512, section)))
      else Some(Geometry(512, 512, 1))
    else Some(Geometry(128, 128, 1))
  }

  /** Whether the section size is written to 0x0304 and read back. */
  predicate ConfirmsIapType(ic: byte, iapVersion: int, g: Geometry)
  {
    UsesIapGeometry(ic, iapVersion) && g.sectionSize == g.pageSize
  }

  /** What every derived geometry looks like: a page of 64, 128 or 512 bytes, split into
      sections that never overrun it, and tiled exactly when the section size divides the page. */
  lemma GeometryShape(ic: byte, iapVersion: int, iapType: u16)
    requires DeriveGeometry(ic, iapVersion, iapType).Some?
    ensures var g := DeriveGeometry(ic, iapVersion, iapType).value;
      && g.pageSize in {64, 128, 512}
      && g.sections * g.sectionSize <= g.pageSize
      && (g.sections >= 1 <==> g.sectionSize <= g.pageSize)
      && (g.pageSize % g.sectionSize == 0 <==> g.sections * g.sectionSize == g.pageSize)
      && (!QueriesSectionSize(ic, iapVersion) ==> g.sections == 1 && g.sectionSize == g.pageSize)
  {
    var g := DeriveGeometry(ic, iapVersion, iapType).value;
    if QueriesSectionSize(ic, iapVersion) {
      var s := g.sectionSize;
      assert g.pageSize == 512 && g.sections == 512 / s;
      assert 512 == g.sections * s + 512 % s;
      if s <= 512 {
        assert g.sections >= 1;
      } else {
        assert g.sections == 0;
      }
    }
  }

  /** The only words ever written to 0x0304 for confirmation are 0x40 and 0x100. */
  lemma ConfirmedIapTypes(ic: byte, iapVersion: int, iapType: u16)
    requires DeriveGeometry(ic, iapVersion, iapType).Some?
    requires ConfirmsIapType(ic, iapVersion, DeriveGeometry(ic, iapVersion, iapType).value)
    ensures DeriveGeometry(ic, iapVersion, iapType).value.sectionSize / 2 in {0x40, 0x100}
  {
  }

  /** The section size is queried only on the large-page types, and the other types keep
      one section per page (the IAP-type confirmation always happens for them). */
  lemma ConfirmationCases(ic: byte, iapVersion: int, iapType: u16)
    requires DeriveGeometry(ic, iapVersion, iapType).Some?
    ensures var g := DeriveGeometry(ic, iapVersion, iapType).value;
      ConfirmsIapType(ic, iapVersion, g) <==>
        UsesIapGeometry(ic, iapVersion) && (!QueriesSectionSize(ic, iapVersion) || iapType == 0x100)
  {
  }

  /** As written, IC 0x14 with IAP version 3 and a 0x0304 word of zero reaches the division
      `fw_page_size / fw_section_size` with a zero divisor. */
  lemma ZeroIapTypeReachesDivisionByZero()
    ensures QueriesSectionSize(0x14, 3) && QueriedSectionSize(0) == 0
  {
  }
}
