/**
 * `ValidateInput`: the checks run on the RAM and stop-at boxes before a run starts.
 * The machine's RAM figures, MemTest's per-instance RAM limit, the default timeout and
 * the user's answer to the paging warning are parameters.
 */
module Validation {
  import opened Base
  import opened Digits

  /** The controls ValidateInput reads: txtRAM, cboThreads, chkStopAt, txtStopAt, udTimeout. */
  datatype Form = Form(ramText: string, threads: nat, stopAtEnabled: bool, stopAtText: string, timeout: Option<int>)

  /** Total, available and free physical memory in MB, as ComputerInfo reports them. */
  datatype Machine = Machine(totalRAM: nat, availableRAM: nat, freeRAM: nat)

  /** The error each message box reports, and the user declining to continue. */
  datatype Rejection =
    | RamNotInteger
    | RamBelowThreads
    | RamAboveLimit
    | RamAboveTotal
    | PagingDeclined
    | StopAtMissing
    | StopAtNotInteger
    | StopAtNotPositive
    | NotInt32

  /**
   * How a validation ends: accepted (with the RAM value and the timeout), rejected with a
   * message, or with an exception out of `Convert.ToInt32`, which nothing catches.
   */
  datatype Verdict =
    | Accepted(ram: int, timeout: int)
    | Rejected(reason: Rejection)
    | Overflowed
    | FormatFailed

  /** The outcome: what the RAM box holds afterwards, and the verdict. */
  datatype Validation = Validation(ramBox: string, verdict: Verdict)

  /** The RAM box once an empty one has been filled with the free RAM, which happens first. */
  function RamBox(f: Form, m: Machine): (t: string)
    ensures t != []
    ensures f.ramText == [] ==> AllDigits(t) && ParseDigits(t) == m.freeRAM
  {
    if f.ramText == [] then
      ParseDecimal(m.freeRAM);
      Decimal(m.freeRAM)
    else f.ramText
  }

  /** What an accepted input satisfies, stated on the raw inputs. */
  predicate Acceptable(f: Form, m: Machine, maxRam: int, continuePaging: bool) {
    var t := RamBox(f, m);
    && AllDigits(t)
    && var ram := ParseDigits(t);
    && ram <= INT32_MAX
    && f.threads <= ram <= maxRam * f.threads
    && ram <= m.totalRAM
    && (ram > m.availableRAM ==> continuePaging)
    && (f.stopAtEnabled ==>
          f.stopAtText != [] && AllDigits(f.stopAtText) && 0 < ParseDigits(f.stopAtText) <= INT32_MAX)
  }

  function TimeoutOrDefault(f: Form, defaultTimeout: int): int {
    if f.timeout.Some? then f.timeout.value else defaultTimeout
  }

  /** The stop-at part of `ValidateInput` as written, reached once the RAM checks passed. */
  function StopAtVerdict(f: Form, ram: int, defaultTimeout: int): (v: Verdict)
    ensures v.Accepted? ==> v == Accepted(ram, TimeoutOrDefault(f, defaultTimeout))
  {
    if !f.stopAtEnabled then Accepted(ram, TimeoutOrDefault(f, defaultTimeout))
    else if f.stopAtText == [] then Rejected(StopAtMissing)
    else if !AllCharIsDigit(f.stopAtText) then Rejected(StopAtNotInteger)
    else match ConvertToInt32(f.stopAtText)
      case FormatError => FormatFailed
      case OverflowError => Overflowed
      case Converted(stopAt) =>
        if stopAt <= 0 then Rejected(StopAtNotPositive) else Accepted(ram, TimeoutOrDefault(f, defaultTimeout))
  }

  /**
   * `ValidateInput` as the code is written, checks in the code's order: the digit checks use
   * `char.IsDigit`, and the conversion can still throw.
   */
  function ValidateInput(f: Form, m: Machine, maxRam: int, defaultTimeout: int, continuePaging: bool): (v: Validation)
    ensures v.ramBox == RamBox(f, m)
    ensures v.verdict.Accepted? ==>
      && AllDigits(v.ramBox) && v.verdict.ram == ParseDigits(v.ramBox)
      && f.threads <= v.verdict.ram <= maxRam * f.threads
      && v.verdict.ram <= m.totalRAM
      && (v.verdict.ram > m.availableRAM ==> continuePaging)
      && v.verdict.timeout == TimeoutOrDefault(f, defaultTimeout)
    ensures v.verdict.Accepted? && f.stopAtEnabled ==>
      f.stopAtText != [] && AllDigits(f.stopAtText) && ParseDigits(f.stopAtText) > 0
    ensures v.verdict.Rejected? ==> v.verdict.reason != NotInt32
    ensures v.verdict.FormatFailed? ==>
      || (AllCharIsDigit(v.ramBox) && !AllDigits(v.ramBox))
      || (f.stopAtEnabled && AllCharIsDigit(f.stopAtText) && !AllDigits(f.stopAtText))
  {
    var box := RamBox(f, m);
    Validation(box,
      if f.ramText != [] && !AllCharIsDigit(f.ramText) then Rejected(RamNotInteger)
      else match ConvertToInt32(box)
        case FormatError => FormatFailed
        case OverflowError => Overflowed
        case Converted(ram) =>
          if ram < f.threads then Rejected(RamBelowThreads)
          else if ram > maxRam * f.threads then Rejected(RamAboveLimit)
          else if ram > m.totalRAM then Rejected(RamAboveTotal)
          else if ram > m.availableRAM && !continuePaging then Rejected(PagingDeclined)
          else StopAtVerdict(f, ram, defaultTimeout))
  }

  /** The input is accepted exactly when every check passes. */
  lemma AcceptedIffAcceptable(f: Form, m: Machine, maxRam: int, defaultTimeout: int, continuePaging: bool)
    ensures ValidateInput(f, m, maxRam, defaultTimeout, continuePaging).verdict.Accepted?
        <==> Acceptable(f, m, maxRam, continuePaging)
  {
  }

  /**
   * The figure written into an empty RAM box stays there whatever the verdict, so the next
   * validation reads that figure instead of asking for the free RAM again.
   */
  lemma FilledBoxIsReused(f: Form, m: Machine, m2: Machine, maxRam: int, defaultTimeout: int, continuePaging: bool)
    requires f.ramText == []
    ensures var box := ValidateInput(f, m, maxRam, defaultTimeout, continuePaging).ramBox;
      ValidateInput(f.(ramText := box), m2, maxRam, defaultTimeout, continuePaging)
        == ValidateInput(f, m2.(freeRAM := m.freeRAM), maxRam, defaultTimeout, continuePaging)
  {
  }

  /** A rejected start still leaves the free-RAM figure in the emptied box. */
  lemma RejectionKeepsFilledBox()
    ensures ValidateInput(Form("", 8, true, "", None), Machine(16384, 8000, 8000), 2048, 300, true)
         == Validation(Decimal(8000), Rejected(StopAtMissing))
  {
  }

  lemma ParseTenDigits()
    ensures AllDigits("3000000000") && ParseDigits("3000000000") == 3000000000
  {
    var t := "3";
    var k := 0;
    while k < 9
      invariant 0 <= k <= 9 && t == "3" + seq(k, _ => '0')
      invariant AllDigits(t) && ParseDigits(t) == 3 * Pow10(k)
    {
      ParseAppend(t, '0');
      t, k := t + "0", k + 1;
    }
    assert t == "3000000000";
  }

  /**
   * A digits-only RAM entry too large for an `int` passes the digit check and then makes
   * `Convert.ToInt32` throw: the handler has no catch for it.
   */
  lemma OversizedRamOverflows()
    ensures AllDigits("3000000000")
    ensures ValidateInput(Form("3000000000", 8, false, "", None), Machine(16384, 8000, 8000), 2048, 300, true).verdict
         == Overflowed
  {
    ParseTenDigits();
  }

  /**
   * An Arabic-Indic three passes `char.IsDigit` and then makes `Convert.ToInt32` throw a
   * `FormatException`; so does a fullwidth stop-at value.
   */
  lemma NonAsciiDigitsThrow()
    ensures AllCharIsDigit("\U{0663}") && !AllDigits("\U{0663}")
    ensures ValidateInput(Form("\U{0663}", 1, false, "", None), Machine(16384, 8000, 8000), 2048, 300, true).verdict
         == FormatFailed
    ensures ValidateInput(Form("1024", 8, true, "\U{FF15}\U{FF10}", None), Machine(16384, 8000, 8000), 2048, 300, true).verdict
         == FormatFailed
  {
    assert !IsDigit("\U{0663}"[0]);
    assert !IsDigit("\U{FF15}\U{FF10}"[0]);
    assert "1024"[..3] == "102" && "102"[..2] == "10" && "10"[..1] == "1";
    assert ParseDigits("1024") == 1024;
    assert AllCharIsDigit("\U{FF15}\U{FF10}");
  }

  /** The corrected stop-at checks: digits only in the ASCII sense, and the overflow reported. */
  function StopAtVerdictChecked(f: Form, ram: int, defaultTimeout: int): (v: Verdict)
    ensures v.Accepted? ==> v == Accepted(ram, TimeoutOrDefault(f, defaultTimeout))
  {
    if !f.stopAtEnabled then Accepted(ram, TimeoutOrDefault(f, defaultTimeout))
    else if f.stopAtText == [] then Rejected(StopAtMissing)
    else if !AllDigits(f.stopAtText) then Rejected(StopAtNotInteger)
    else if ParseDigits(f.stopAtText) > INT32_MAX then Rejected(NotInt32)
    else if ParseDigits(f.stopAtText) == 0 then Rejected(StopAtNotPositive)
    else Accepted(ram, TimeoutOrDefault(f, defaultTimeout))
  }

  /**
   * `ValidateInput` with every failure reported by a message: the digit checks accept only
   * what `Convert.ToInt32` can read, and a value too large for an `int` is rejected. It
   * fills the RAM box the same way, gives every input a verdict, and gives the as-written
   * verdict wherever that one does not throw.
   */
  function ValidateInputChecked(f: Form, m: Machine, maxRam: int, defaultTimeout: int, continuePaging: bool): (v: Validation)
    ensures v.ramBox == ValidateInput(f, m, maxRam, defaultTimeout, continuePaging).ramBox
    ensures !v.verdict.Overflowed? && !v.verdict.FormatFailed?
    ensures v.verdict.Accepted? <==> Acceptable(f, m, maxRam, continuePaging)
    ensures var w := ValidateInput(f, m, maxRam, defaultTimeout, continuePaging).verdict;
      && (w.Overflowed? ==> v.verdict == Rejected(NotInt32))
      && (w.FormatFailed? ==> v.verdict == Rejected(RamNotInteger) || v.verdict == Rejected(StopAtNotInteger))
      && (!w.Overflowed? && !w.FormatFailed? ==> v.verdict == w)
  {
    var box := RamBox(f, m);
    Validation(box,
      if !AllDigits(box) then Rejected(RamNotInteger)
      else if ParseDigits(box) > INT32_MAX then Rejected(NotInt32)
      else
        var ram := ParseDigits(box);
        if ram < f.threads then Rejected(RamBelowThreads)
        else if ram > maxRam * f.threads then Rejected(RamAboveLimit)
        else if ram > m.totalRAM then Rejected(RamAboveTotal)
        else if ram > m.availableRAM && !continuePaging then Rejected(PagingDeclined)
        else StopAtVerdictChecked(f, ram, defaultTimeout))
  }

  /** The corrected check rejects the entries the as-written one throws on. */
  lemma ThrowingEntriesRejected()
    ensures ValidateInputChecked(Form("3000000000", 8, false, "", None), Machine(16384, 8000, 8000), 2048, 300, true).verdict
         == Rejected(NotInt32)
    ensures ValidateInputChecked(Form("\U{0663}", 1, false, "", None), Machine(16384, 8000, 8000), 2048, 300, true).verdict
         == Rejected(RamNotInteger)
  {
    ParseTenDigits();
    assert !IsDigit("\U{0663}"[0]);
  }
}
