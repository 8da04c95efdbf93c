/** The W3C traceparent header (section 3.2.2 of W3C Trace Context): parsing against printing. */
module Traceparent {
  import opened Wrappers
  import opened PythonText

  const VERSION_LENGTH := 2
  const TRACE_ID_LENGTH := 32
  const PARENT_ID_LENGTH := 16
  const FLAGS_LENGTH := 2

  /** `str.split` with a one-character separator: always at least one part. */
  function Split(s: string, separator: char): (parts: seq<string>)
    ensures parts != []
  {
    if s == "" then [""]
    else
      var rest := Split(s[1..], separator);
      if s[0] == separator then [""] + rest else [[s[0]] + rest[0]] + rest[1..]
  }

  function Join(parts: seq<string>, separator: char): string
    requires parts != []
  {
    if |parts| == 1 then parts[0] else parts[0] + [separator] + Join(parts[1..], separator)
  }

  predicate IsLowerHexDigit(c: char) {
    '0' <= c <= '9' || 'a' <= c <= 'f'
  }

  predicate IsLowerHex(value: string, length: nat) {
    |value| == length && forall i :: 0 <= i < |value| ==> IsLowerHexDigit(value[i])
  }

  predicate IsAllZero(value: string) {
    value != "" && forall i :: 0 <= i < |value| ==> value[i] == '0'
  }

  predicate IsVersion(value: string) {
    IsLowerHex(value, VERSION_LENGTH) && value != "ff"
  }

  predicate IsTraceId(value: string) {
    IsLowerHex(value, TRACE_ID_LENGTH) && !IsAllZero(value)
  }

  predicate IsParentId(value: string) {
    IsLowerHex(value, PARENT_ID_LENGTH) && !IsAllZero(value)
  }

  predicate IsFlags(value: string) {
    IsLowerHex(value, FLAGS_LENGTH)
  }

  function ParseTraceparent(header: Option<string>): Option<(string, string)> {
    if header.None? then None
    else
      var parts := Split(Strip(header.value), '-');
      if |parts| != 4 then None
      else if IsVersion(parts[0]) && IsTraceId(parts[1]) && IsParentId(parts[2]) && IsFlags(parts[3]) then
        Some((parts[1], parts[2]))
      else None
  }

  function Print(version: string, traceId: string, parentId: string, flags: string): string {
    version + "-" + traceId + "-" + parentId + "-" + flags
  }

  // ---------------------------------------------------------------- splitting and joining

  lemma {:induction false} JoinSplit(s: string, separator: char)
    ensures Join(Split(s, separator), separator) == s
    ensures forall k :: 0 <= k < |Split(s, separator)| ==> separator !in Split(s, separator)[k]
  {
    if s == "" {
    } else {
      JoinSplit(s[1..], separator);
      var rest, parts := Split(s[1..], separator), Split(s, separator);
      if s[0] == separator {
        assert parts[1..] == rest;
      } else {
        assert parts[1..] == rest[1..];
      }
      assert s == [s[0]] + s[1..];
    }
  }

  lemma {:induction false} SplitPlain(part: string, separator: char)
    requires separator !in part
    ensures Split(part, separator) == [part]
  {
    if part == "" {
    } else {
      SplitPlain(part[1..], separator);
      assert [part[0]] + part[1..] == part;
    }
  }

  lemma {:induction false} SplitFirst(part: string, rest: string, separator: char)
    requires separator !in part
    ensures Split(part + [separator] + rest, separator) == [part] + Split(rest, separator)
  {
    var s := part + [separator] + rest;
    if part == "" {
      assert s[1..] == rest;
    } else {
      SplitFirst(part[1..], rest, separator);
      assert s[1..] == part[1..] + [separator] + rest;
      assert [part[0]] + part[1..] == part;
    }
  }

  /** Splitting undoes joining when no part contains the separator. */
  lemma {:induction false} SplitJoin(parts: seq<string>, separator: char)
    requires parts != [] && forall k :: 0 <= k < |parts| ==> separator !in parts[k]
    ensures Split(Join(parts, separator), separator) == parts
  {
    if |parts| == 1 {
      SplitPlain(parts[0], separator);
    } else {
      SplitJoin(parts[1..], separator);
      SplitFirst(parts[0], Join(parts[1..], separator), separator);
    }
  }

  lemma PrintIsJoin(a: string, b: string, c: string, d: string)
    ensures Print(a, b, c, d) == Join([a, b, c, d], '-')
  {
    assert [a, b, c, d][1..] == [b, c, d] && [b, c, d][1..] == [c, d] && [c, d][1..] == [d];
    assert Join([c, d], '-') == c + "-" + d;
    assert Join([b, c, d], '-') == b + "-" + (c + "-" + d);
    assert Join([a, b, c, d], '-') == a + "-" + (b + "-" + (c + "-" + d));
  }

  // ---------------------------------------------------------------- the two directions

  /** Printing valid fields, with any whitespace around, parses back to the trace and parent ids. */
  lemma ParseUndoesPrint(
    left: string, version: string, traceId: string, parentId: string, flags: string, right: string)
    requires AllSpace(left) && AllSpace(right)
    requires IsVersion(version) && IsTraceId(traceId) && IsParentId(parentId) && IsFlags(flags)
    ensures ParseTraceparent(Some(left + Print(version, traceId, parentId, flags) + right)) == Some((traceId, parentId))
  {
    var core := Print(version, traceId, parentId, flags);
    assert core[0] == version[0] && core[|core| - 1] == flags[1];
    StripPadded(left, core, right);
    PrintIsJoin(version, traceId, parentId, flags);
    SplitJoin([version, traceId, parentId, flags], '-');
  }

  /** Everything accepted is whitespace around the print of exactly one choice of valid fields. */
  lemma AcceptedIsPrinted(header: string) returns (version: string, flags: string)
    requires ParseTraceparent(Some(header)).Some?
    ensures var (traceId, parentId) := ParseTraceparent(Some(header)).value;
            && IsVersion(version) && IsTraceId(traceId) && IsParentId(parentId) && IsFlags(flags)
            && Strip(header) == Print(version, traceId, parentId, flags)
            && forall a, b, c, d ::
                 IsVersion(a) && IsTraceId(b) && IsParentId(c) && IsFlags(d) && Strip(header) == Print(a, b, c, d) ==>
                   a == version && b == traceId && c == parentId && d == flags
  {
    var parts := Split(Strip(header), '-');
    version, flags := parts[0], parts[3];
    JoinSplit(Strip(header), '-');
    assert parts == [parts[0], parts[1], parts[2], parts[3]];
    PrintIsJoin(parts[0], parts[1], parts[2], parts[3]);
    forall a, b, c, d |
      IsVersion(a) && IsTraceId(b) && IsParentId(c) && IsFlags(d) && Strip(header) == Print(a, b, c, d)
      ensures a == parts[0] && b == parts[1] && c == parts[2] && d == parts[3]
    {
      PrintIsJoin(a, b, c, d);
      SplitJoin([a, b, c, d], '-');
    }
  }

  // ---------------------------------------------------------------- the standard's reading

  const PRINTED_LENGTH := 55

  const HEX_DIGITS := "0123456789abcdef"

  /** The characters from `lo` up to `hi` are small hexadecimal digits. */
  predicate HexAt(core: string, lo: nat, hi: nat)
    requires lo <= hi <= |core|
  {
    forall i :: lo <= i < hi ==> core[i] in HEX_DIGITS
  }

  predicate NonZeroAt(core: string, lo: nat, hi: nat)
    requires lo <= hi <= |core|
  {
    exists i :: lo <= i < hi && core[i] != '0'
  }

  /**
    What the standard accepts, by position: version, trace id, parent id and flags of fixed width,
    the ids not all zero and the version not `ff`; and behind them nothing, or under a version
    above `00` a dash and further fields.
  */
  predicate StandardAccepts(header: string) {
    var core := Strip(header);
    && |core| >= 55
    && HexAt(core, 0, 2) && core[2] == '-' && !(core[0] == 'f' && core[1] == 'f')
    && HexAt(core, 3, 35) && core[35] == '-' && NonZeroAt(core, 3, 35)
    && HexAt(core, 36, 52) && core[52] == '-' && NonZeroAt(core, 36, 52)
    && HexAt(core, 53, 55)
    && (|core| > 55 ==> !(core[0] == '0' && core[1] == '0') && core[55] == '-')
  }

  lemma HexDigitsMeaning(c: char)
    ensures c in HEX_DIGITS <==> IsLowerHexDigit(c)
  {
    assert HEX_DIGITS[0] == '0' && HEX_DIGITS[1] == '1' && HEX_DIGITS[2] == '2' && HEX_DIGITS[3] == '3';
    assert HEX_DIGITS[4] == '4' && HEX_DIGITS[5] == '5' && HEX_DIGITS[6] == '6' && HEX_DIGITS[7] == '7';
    assert HEX_DIGITS[8] == '8' && HEX_DIGITS[9] == '9' && HEX_DIGITS[10] == 'a' && HEX_DIGITS[11] == 'b';
    assert HEX_DIGITS[12] == 'c' && HEX_DIGITS[13] == 'd' && HEX_DIGITS[14] == 'e' && HEX_DIGITS[15] == 'f';
  }

  lemma HexAtMeaning(core: string, lo: nat, hi: nat)
    requires lo <= hi <= |core|
    ensures HexAt(core, lo, hi) <==> IsLowerHex(core[lo..hi], hi - lo)
    ensures lo < hi ==> (NonZeroAt(core, lo, hi) <==> !IsAllZero(core[lo..hi]))
  {
    var part := core[lo..hi];
    forall c ensures c in HEX_DIGITS <==> IsLowerHexDigit(c) {
      HexDigitsMeaning(c);
    }
    assert forall i :: lo <= i < hi ==> core[i] == part[i - lo];
    if IsLowerHex(part, hi - lo) {
      forall i | lo <= i < hi ensures core[i] in HEX_DIGITS {
        assert IsLowerHexDigit(part[i - lo]);
      }
    }
    if lo < hi && !NonZeroAt(core, lo, hi) {
      forall k | 0 <= k < |part| ensures part[k] == '0' {
        assert core[lo + k] == part[k];
      }
    }
  }

  /** The fields at their positions are valid exactly when the standard's conditions hold there. */
  lemma FieldsAtPositions(core: string)
    requires |core| >= 55
    ensures IsVersion(core[..2]) <==> HexAt(core, 0, 2) && !(core[0] == 'f' && core[1] == 'f')
    ensures IsTraceId(core[3..35]) <==> HexAt(core, 3, 35) && NonZeroAt(core, 3, 35)
    ensures IsParentId(core[36..52]) <==> HexAt(core, 36, 52) && NonZeroAt(core, 36, 52)
    ensures IsFlags(core[53..55]) <==> HexAt(core, 53, 55)
  {
    HexAtMeaning(core, 0, 2);
    HexAtMeaning(core, 3, 35);
    HexAtMeaning(core, 36, 52);
    HexAtMeaning(core, 53, 55);
    assert core[0..2] == core[..2];
    assert core[..2] == [core[0], core[1]];
  }

  predicate FieldsAccepted(core: string) {
    && |core| >= PRINTED_LENGTH
    && core[2] == '-' && core[35] == '-' && core[52] == '-'
    && IsVersion(core[..2]) && IsTraceId(core[3..35]) && IsParentId(core[36..52]) && IsFlags(core[53..55])
    && (|core| > PRINTED_LENGTH ==> core[..2] != "00" && core[PRINTED_LENGTH] == '-')
  }

  lemma StandardIsFields(header: string)
    ensures StandardAccepts(header) <==> FieldsAccepted(Strip(header))
  {
    var core := Strip(header);
    if |core| >= PRINTED_LENGTH {
      FieldsAtPositions(core);
      assert core[..2] == [core[0], core[1]];
    }
  }

  lemma FourFields(core: string)
    requires |core| == PRINTED_LENGTH && core[2] == '-' && core[35] == '-' && core[52] == '-'
    ensures core == Print(core[..2], core[3..35], core[36..52], core[53..55])
  {
  }

  /**
    The code accepts exactly what the standard accepts without further fields, with the ids at
    their positions. Exactly the headers of higher versions with further fields are refused.
  */
  lemma AcceptsStandardIff(header: string)
    ensures ParseTraceparent(Some(header)).Some? <==> StandardAccepts(header) && |Strip(header)| == PRINTED_LENGTH
    ensures StandardAccepts(header) && ParseTraceparent(Some(header)).None? <==>
            StandardAccepts(header) && Strip(header)[..2] != "00" && |Strip(header)| > PRINTED_LENGTH
    ensures ParseTraceparent(Some(header)).Some? ==>
              ParseTraceparent(Some(header)).value == (Strip(header)[3..35], Strip(header)[36..52])
  {
    StandardIsFields(header);
    ParseIsFields(header);
  }

  lemma ParseIsFields(header: string)
    ensures ParseTraceparent(Some(header)).Some? <==> FieldsAccepted(Strip(header)) && |Strip(header)| == PRINTED_LENGTH
    ensures ParseTraceparent(Some(header)).Some? ==>
              ParseTraceparent(Some(header)).value == (Strip(header)[3..35], Strip(header)[36..52])
  {
    var core := Strip(header);
    if ParseTraceparent(Some(header)).Some? {
      var version, flags := AcceptedIsPrinted(header);
      var (traceId, parentId) := ParseTraceparent(Some(header)).value;
      PrintedPositions(version, traceId, parentId, flags);
    }
    if FieldsAccepted(core) && |core| == PRINTED_LENGTH {
      FourFields(core);
      ParseOfCore(header, core[..2], core[3..35], core[36..52], core[53..55]);
    }
  }

  lemma PrintedPositions(version: string, traceId: string, parentId: string, flags: string)
    requires IsVersion(version) && IsTraceId(traceId) && IsParentId(parentId) && IsFlags(flags)
    ensures var core := Print(version, traceId, parentId, flags);
            && |core| == PRINTED_LENGTH && core[2] == '-' && core[35] == '-' && core[52] == '-'
            && core[..2] == version && core[3..35] == traceId && core[36..52] == parentId && core[53..55] == flags
  {
  }

  lemma ParseOfCore(header: string, version: string, traceId: string, parentId: string, flags: string)
    requires IsVersion(version) && IsTraceId(traceId) && IsParentId(parentId) && IsFlags(flags)
    requires Strip(header) == Print(version, traceId, parentId, flags)
    ensures ParseTraceparent(Some(header)) == Some((traceId, parentId))
  {
    var left, right := StripMeaning(header);
    ParseUndoesPrint(left, version, traceId, parentId, flags, right);
  }
}
