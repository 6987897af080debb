/** The rhythm of a firmware block write: when the status register is read after a
    block, how the section counter `fw_section_cnt` moves, and how the ten-attempt
    retry of `elan_write_fw_block` ends. */
module Cadence {
  import opened Bytes
  import opened Transport
  import opened Handshake

  const IapPageErr: nat := 0x20     // ETP_FW_IAP_PAGE_ERR, bit 5
  const IapIntfErr: nat := 0x10     // ETP_FW_IAP_INTF_ERR, bit 4
  const MaxAttempts: nat := 10

  /** The status register is read after a block when pages are written whole, or when
      the counter has reached the number of sections in a page. */
  predicate StatusChecked(sectionSize: nat, pageSize: nat, cnt: nat, sections: nat)
  {
    sectionSize == pageSize || cnt == sections
  }

  /** The status word reports a failed write when bit 5 or bit 4 is set (`rv & 0x30`). */
  predicate StatusFailed(status: u16)
  {
    HasBit(status, IapPageErr) || HasBit(status, IapIntfErr)
  }

  /** One attempt at writing a block: whether the frame went through, whether the status
      register was read afterwards, and the word it gave (0 when it was not read). */
  datatype Attempt = Attempt(sent: bool, checked: bool, status: u16)

  /** The value `i2c_write_fw_block` / `hid_write_fw_block` return: -1 when the transfer
      failed, the status word when it reports a failed write, 0 otherwise. */
  function AttemptResult(a: Attempt): (rv: int)
    ensures rv == 0 <==> a.sent && !(a.checked && StatusFailed(a.status))
    ensures rv < 0 <==> !a.sent
    ensures rv > 0 ==> rv == a.status
  {
    if !a.sent then -1
    else if a.checked && StatusFailed(a.status) then a.status
    else 0
  }

  /** `fw_section_cnt` after an attempt: untouched when the transfer failed, back to 1 after a
      status read (it is zeroed, then incremented), one more otherwise. */
  function NextSectionCount(cnt: nat, a: Attempt): nat
  {
    if !a.sent then cnt else if a.checked then 1 else cnt + 1
  }

  /** The counter after a run of attempts. */
  function CountAfter(attempts: seq<Attempt>, cnt: nat): nat
    decreases |attempts|
  {
    if |attempts| == 0 then cnt
    else NextSectionCount(CountAfter(attempts[..|attempts| - 1], cnt), attempts[|attempts| - 1])
  }

  /** Every attempt of the run read the status register exactly when the counter, as it stood
      before that attempt, said so. */
  predicate Paced(attempts: seq<Attempt>, cnt: nat, sectionSize: nat, pageSize: nat, sections: nat)
    decreases |attempts|
  {
    |attempts| == 0 ||
    (var init := attempts[..|attempts| - 1];
     Paced(init, cnt, sectionSize, pageSize, sections) &&
     attempts[|attempts| - 1].checked == StatusChecked(sectionSize, pageSize, CountAfter(init, cnt), sections))
  }

  /** The register operations of one attempt: the block frame, then the status read when the
      frame went through and the cadence asks for one. */
  function AttemptOps(data: seq<byte>, checksum: u16, a: Attempt): seq<Op>
  {
    [Block(data, checksum, a.sent)] + (if a.sent && a.checked then [Read(IapCtrlCmd, a.status)] else [])
  }

  /** The register operations of a run of attempts at the same block. */
  function RetryOps(data: seq<byte>, checksum: u16, attempts: seq<Attempt>): seq<Op>
    decreases |attempts|
  {
    if |attempts| == 0 then []
    else RetryOps(data, checksum, attempts[..|attempts| - 1]) + AttemptOps(data, checksum, attempts[|attempts| - 1])
  }

  /** The attempts `elan_write_fw_block` makes: at least one and at most ten, every one but the
      last failed, and the loop only gave up after the tenth. */
  predicate RetryShape(attempts: seq<Attempt>)
  {
    && 1 <= |attempts| <= MaxAttempts
    && (forall i :: 0 <= i < |attempts| - 1 ==> AttemptResult(attempts[i]) != 0)
    && (AttemptResult(attempts[|attempts| - 1]) != 0 ==> |attempts| == MaxAttempts)
  }

  /** The result of the retry loop is 0 exactly when one of its attempts succeeded, and then
      that was the last one; a nonzero result means ten attempts all failed, and it is the
      result of the tenth. */
  lemma RetryOutcome(attempts: seq<Attempt>)
    requires RetryShape(attempts)
    ensures var rv := AttemptResult(attempts[|attempts| - 1]);
      && (rv == 0 <==> exists i :: 0 <= i < |attempts| && AttemptResult(attempts[i]) == 0)
      && (rv != 0 ==> |attempts| == MaxAttempts && forall i :: 0 <= i < |attempts| ==> AttemptResult(attempts[i]) != 0)
  {
    var last := |attempts| - 1;
    if AttemptResult(attempts[last]) != 0 {
      forall i | 0 <= i < |attempts|
        ensures AttemptResult(attempts[i]) != 0
      {
        if i < last {
        }
      }
    }
  }

  /** Nine failed attempts followed by a success still return 0. */
  lemma TenthAttemptCanSucceed(failure: Attempt, success: Attempt)
    requires AttemptResult(failure) != 0 && AttemptResult(success) == 0
    ensures RetryShape(seq(9, _ => failure) + [success])
  {
    var attempts := seq(9, _ => failure) + [success];
    assert forall i :: 0 <= i < 9 ==> attempts[i] == failure;
  }

  // ----- the counter over a run -----

  /** Running the counter over two runs one after the other. */
  lemma {:induction false} CountAfterAppend(xs: seq<Attempt>, ys: seq<Attempt>, cnt: nat)
    ensures CountAfter(xs + ys, cnt) == CountAfter(ys, CountAfter(xs, cnt))
    decreases |ys|
  {
    if |ys| == 0 {
      assert xs + ys == xs;
    } else {
      var ys' := ys[..|ys| - 1];
      assert (xs + ys)[..|xs + ys| - 1] == xs + ys';
      CountAfterAppend(xs, ys', cnt);
    }
  }

  /** A run is paced when its two parts are, the second from where the first left the counter. */
  lemma {:induction false} PacedAppend(xs: seq<Attempt>, ys: seq<Attempt>, cnt: nat, sectionSize: nat, pageSize: nat, sections: nat)
    ensures Paced(xs + ys, cnt, sectionSize, pageSize, sections) <==>
      Paced(xs, cnt, sectionSize, pageSize, sections) && Paced(ys, CountAfter(xs, cnt), sectionSize, pageSize, sections)
    decreases |ys|
  {
    if |ys| == 0 {
      assert xs + ys == xs;
    } else {
      var ys' := ys[..|ys| - 1];
      assert (xs + ys)[..|xs + ys| - 1] == xs + ys';
      assert (xs + ys)[|xs + ys| - 1] == ys[|ys| - 1];
      PacedAppend(xs, ys', cnt, sectionSize, pageSize, sections);
      CountAfterAppend(xs, ys', cnt);
    }
  }

  lemma {:induction false} MulAtLeast(a: int, n: int)
    requires a >= 1 && n > 0
    ensures a * n >= n
    decreases a
  {
    if a > 1 {
      MulAtLeast(a - 1, n);
      assert a * n == (a - 1) * n + n;
    }
  }

  /** Euclidean remainders are unique. */
  lemma ModUnique(x: int, n: int, q: int, r: int)
    requires n > 0 && 0 <= r < n && x == q * n + r
    ensures x % n == r
  {
    var q', r' := x / n, x % n;
    assert x == q' * n + r';
    if q' > q {
      assert (q' - q) * n == r - r';
      MulAtLeast(q' - q, n);
    } else if q' < q {
      assert (q - q') * n == r' - r;
      MulAtLeast(q - q', n);
    }
  }

  /** Moving one step around a cycle of length `n`. */
  lemma ModStep(j: nat, n: nat)
    requires n > 0
    ensures (j + 1) % n == if j % n == n - 1 then 0 else j % n + 1
  {
    var q, r := j / n, j % n;
    assert j == q * n + r;
    if r == n - 1 {
      ModUnique(j + 1, n, q + 1, 0);
    } else {
      ModUnique(j + 1, n, q, r + 1);
    }
  }

  /** With pages split into `n >= 1` sections, when every block goes through at its first
      attempt and reports no error, the update (which starts the counter at 1) reads the
      status register after block `j` exactly when `j + 1` is a multiple of `n`: once per
      page, after its last section. */
  lemma {:induction false} StatusOncePerPage(attempts: seq<Attempt>, sectionSize: nat, pageSize: nat, n: nat)
    requires sectionSize != pageSize && n >= 1
    requires Paced(attempts, 1, sectionSize, pageSize, n)
    requires forall j :: 0 <= j < |attempts| ==> AttemptResult(attempts[j]) == 0
    ensures CountAfter(attempts, 1) == |attempts| % n + 1
    ensures forall j :: 0 <= j < |attempts| ==> (attempts[j].checked <==> (j + 1) % n == 0)
    decreases |attempts|
  {
    if |attempts| > 0 {
      var k := |attempts| - 1;
      var init := attempts[..k];
      assert forall j :: 0 <= j < k ==> init[j] == attempts[j];
      StatusOncePerPage(init, sectionSize, pageSize, n);
      ModStep(k, n);
      var c := CountAfter(init, 1);
      assert c == k % n + 1;
      assert attempts[k].checked <==> c == n;
      assert CountAfter(attempts, 1) == if c == n then 1 else c + 1;
    }
  }

  /** When a section is larger than a page (`fw_no_of_sections` is 0), the counter, started at
      1, never reaches 0 and the status register is never read. */
  lemma {:induction false} NoSectionsNeverChecked(attempts: seq<Attempt>, cnt: nat, sectionSize: nat, pageSize: nat)
    requires sectionSize != pageSize && cnt >= 1
    requires Paced(attempts, cnt, sectionSize, pageSize, 0)
    ensures CountAfter(attempts, cnt) >= 1
    ensures forall j :: 0 <= j < |attempts| ==> !attempts[j].checked
    decreases |attempts|
  {
    if |attempts| > 0 {
      NoSectionsNeverChecked(attempts[..|attempts| - 1], cnt, sectionSize, pageSize);
    }
  }

  /** After a status read that reports a failed write, the counter is 1: with two or more
      sections per page, the retry of that page's last section is not followed by a status read. */
  lemma RetryAfterPageErrorUnchecked(cnt: nat, a: Attempt, sectionSize: nat, pageSize: nat, n: nat)
    requires sectionSize != pageSize && n >= 2
    requires a.checked == StatusChecked(sectionSize, pageSize, cnt, n)
    requires a.sent && a.checked && StatusFailed(a.status)
    ensures AttemptResult(a) > 0
    ensures cnt == n && NextSectionCount(cnt, a) == 1
    ensures !StatusChecked(sectionSize, pageSize, NextSectionCount(cnt, a), n)
  {
  }

  /** When whole pages are written, every block that goes through is followed by a status read. */
  lemma {:induction false} WholePagesAlwaysChecked(attempts: seq<Attempt>, cnt: nat, size: nat, n: nat)
    requires Paced(attempts, cnt, size, size, n)
    ensures forall j :: 0 <= j < |attempts| ==> attempts[j].checked
    decreases |attempts|
  {
    if |attempts| > 0 {
      WholePagesAlwaysChecked(attempts[..|attempts| - 1], cnt, size, n);
    }
  }
}
