/**
 Window fingerprints: process, handle and title in one text. Whatever the titles and names
 contain, the handle can be read back, so windows with different handles have different
 fingerprints.
 */
module Fingerprints {
  import opened Wrappers
  import ElementIds
  import Materialize

  // ------------------------------------------------------------- hexadecimal

  function HexDigit(d: nat): char
    requires d < 16
  {
    "0123456789abcdef"[d]
  }

  function DigitValue(c: char): nat {
    if '0' <= c <= '9' then c as nat - '0' as nat
    else if 'a' <= c <= 'f' then c as nat - 'a' as nat + 10
    else 0
  }

  function Hex(n: nat): string {
    if n < 16 then [HexDigit(n)] else Hex(n / 16) + [HexDigit(n % 16)]
  }

  function Zeros(count: nat): string {
    if count == 0 then "" else ['0'] + Zeros(count - 1)
  }

  /** At least sixteen digits, as a handle is rendered. */
  function PaddedHex(n: nat): string {
    Zeros(if |Hex(n)| < 16 then 16 - |Hex(n)| else 0) + Hex(n)
  }

  function HexValue(digits: string): nat {
    if digits == [] then 0 else HexValue(digits[..|digits| - 1]) * 16 + DigitValue(digits[|digits| - 1])
  }

  lemma DigitReadsBack(d: nat)
    requires d < 16
    ensures DigitValue(HexDigit(d)) == d && HexDigit(d) != ':'
  {
  }

  lemma LastDigit(head: string, d: nat)
    requires d < 16
    ensures HexValue(head + [HexDigit(d)]) == HexValue(head) * 16 + d
  {
    DigitReadsBack(d);
    assert (head + [HexDigit(d)])[..|head|] == head;
  }

  lemma {:induction false} HexReadsBack(n: nat)
    ensures HexValue(Hex(n)) == n
    ensures ':' !in Hex(n)
  {
    if n < 16 {
      LastDigit([], n);
      DigitReadsBack(n);
      assert Hex(n) == [] + [HexDigit(n)];
    } else {
      HexReadsBack(n / 16);
      LastDigit(Hex(n / 16), n % 16);
      DigitReadsBack(n % 16);
    }
  }

  lemma {:induction false} ZerosAddNothing(count: nat, digits: string)
    ensures HexValue(Zeros(count) + digits) == HexValue(digits)
    ensures ':' !in Zeros(count)
    decreases |digits|, count
  {
    if digits != [] {
      ZerosAddNothing(count, digits[..|digits| - 1]);
      assert (Zeros(count) + digits)[..|Zeros(count) + digits| - 1] == Zeros(count) + digits[..|digits| - 1];
    } else if count > 0 {
      ZerosAddNothing(count - 1, []);
      ZerosEndInZero(count);
      assert Zeros(count) + digits == Zeros(count);
      assert Zeros(count - 1) + digits == Zeros(count - 1);
    }
  }

  lemma {:induction false} ZerosEndInZero(count: nat)
    requires count > 0
    ensures Zeros(count) == Zeros(count - 1) + ['0']
  {
    if count > 1 { ZerosEndInZero(count - 1); }
  }

  lemma PaddedReadsBack(n: nat)
    ensures HexValue(PaddedHex(n)) == n
  {
    HexReadsBack(n);
    ZerosAddNothing(if |Hex(n)| < 16 then 16 - |Hex(n)| else 0, Hex(n));
  }

  lemma PaddedHasNoColon(n: nat)
    ensures ':' !in PaddedHex(n)
  {
    HexReadsBack(n);
    ZerosAddNothing(if |Hex(n)| < 16 then 16 - |Hex(n)| else 0, []);
  }

  // ------------------------------------------------------- cutting at a colon

  function UpTo(text: string, mark: char): string {
    if text == [] || text[0] == mark then "" else [text[0]] + UpTo(text[1..], mark)
  }

  function Behind(text: string, mark: char): string {
    if text == [] then "" else if text[0] == mark then text[1..] else Behind(text[1..], mark)
  }

  lemma {:induction false} CutAtMark(head: string, mark: char, tail: string)
    requires mark !in head
    ensures UpTo(head + [mark] + tail, mark) == head
    ensures Behind(head + [mark] + tail, mark) == tail
  {
    var text := head + [mark] + tail;
    if head == [] {
      assert text[1..] == tail;
    } else {
      CutAtMark(head[1..], mark, tail);
      assert text[1..] == head[1..] + [mark] + tail;
    }
  }

  // ------------------------------------------------------------- fingerprints

  lemma SecondField(first: string, second: string, rest: string)
    requires ':' !in first && ':' !in second
    ensures UpTo(Behind(first + ":" + second + ":" + rest, ':'), ':') == second
  {
    assert first + ":" + second + ":" + rest == first + [':'] + (second + [':'] + rest);
    CutAtMark(first, ':', second + [':'] + rest);
    CutAtMark(second, ':', rest);
  }

  function PidField(pid: nat): string {
    "pid=" + ElementIds.Decimal(pid)
  }

  function HandleField(hwnd: nat): string {
    "hwnd=" + PaddedHex(hwnd)
  }

  function WindowFields(normalize: Materialize.Normalizer, className: Option<string>, title: string,
                        rootName: Option<string>): string {
    "class=" + Materialize.NormalizeOptional(normalize, className)
    + ":title=" + normalize(title)
    + ":root_name=" + Materialize.NormalizeOptional(normalize, rootName)
  }

  function WindowFingerprint(normalize: Materialize.Normalizer, pid: nat, hwnd: nat, className: Option<string>,
                             title: string, rootName: Option<string>): string {
    PidField(pid) + ":" + HandleField(hwnd) + ":" + WindowFields(normalize, className, title, rootName)
  }

  function MsaaFields(normalize: Materialize.Normalizer, roleName: string, title: string): string {
    "msaa_role=" + normalize(roleName) + ":title=" + normalize(title)
  }

  /** The form for windows that only the older interface can read. */
  function MsaaFingerprint(normalize: Materialize.Normalizer, pid: nat, hwnd: nat, roleName: string, title: string)
    : string
  {
    PidField(pid) + ":" + HandleField(hwnd) + ":" + MsaaFields(normalize, roleName, title)
  }

  /** The handle a fingerprint spells: the digits of its second field. */
  function HandleSpelled(fingerprint: string): nat {
    var field := UpTo(Behind(fingerprint, ':'), ':');
    HexValue(if |field| >= 5 then field[5..] else "")
  }

  lemma FieldsHaveNoColon(pid: nat, hwnd: nat)
    ensures ':' !in PidField(pid) && ':' !in HandleField(hwnd)
  {
    ElementIds.DecimalDigits(pid);
    PaddedHasNoColon(hwnd);
  }

  lemma FieldsSpellHandle(pid: nat, hwnd: nat, rest: string)
    ensures HandleSpelled(PidField(pid) + ":" + HandleField(hwnd) + ":" + rest) == hwnd
  {
    FieldsHaveNoColon(pid, hwnd);
    SecondField(PidField(pid), HandleField(hwnd), rest);
    PaddedReadsBack(hwnd);
    assert HandleField(hwnd)[5..] == PaddedHex(hwnd);
  }

  /** The handle reads back from either form, whatever the texts behind it contain. */
  lemma FingerprintSpellsHandle(normalize: Materialize.Normalizer, pid: nat, hwnd: nat, className: Option<string>,
                                roleName: string, title: string, rootName: Option<string>)
    ensures HandleSpelled(WindowFingerprint(normalize, pid, hwnd, className, title, rootName)) == hwnd
    ensures HandleSpelled(MsaaFingerprint(normalize, pid, hwnd, roleName, title)) == hwnd
  {
    FieldsSpellHandle(pid, hwnd, WindowFields(normalize, className, title, rootName));
    FieldsSpellHandle(pid, hwnd, MsaaFields(normalize, roleName, title));
  }

  /** A fingerprint built for the window with this handle, in either form. */
  ghost predicate BuiltFor(normalize: Materialize.Normalizer, fingerprint: string, hwnd: nat) {
    || (exists pid, className, title, rootName ::
      fingerprint == WindowFingerprint(normalize, pid, hwnd, className, title, rootName))
    || (exists pid, roleName, title :: fingerprint == MsaaFingerprint(normalize, pid, hwnd, roleName, title))
  }

  /** Different handles, different fingerprints, also across the two forms. */
  lemma EqualFingerprintsEqualHandles(normalize: Materialize.Normalizer, fingerprint: string, hwnd: nat)
    requires BuiltFor(normalize, fingerprint, hwnd)
    ensures hwnd == HandleSpelled(fingerprint)
    ensures forall other | BuiltFor(normalize, fingerprint, other) :: other == hwnd
  {
    forall other | BuiltFor(normalize, fingerprint, other) ensures other == HandleSpelled(fingerprint) {
      if pid, className, title, rootName :|
        fingerprint == WindowFingerprint(normalize, pid, other, className, title, rootName)
      {
        FingerprintSpellsHandle(normalize, pid, other, className, "", title, rootName);
      } else {
        var pid, roleName, title :| fingerprint == MsaaFingerprint(normalize, pid, other, roleName, title);
        FingerprintSpellsHandle(normalize, pid, other, None, roleName, title, None);
      }
    }
  }
}
