/** How `save` picks the version of a new upload (index.js:104-112): it starts
    from "1" and, when the first record of the ordered lookup carries a truthy
    `metadata.version`, replaces it by one more than that version parsed with
    `parseInt(...) || 0`. A failed lookup is swallowed. */
module Versioning {
  import opened Wrappers
  import opened Js
  import opened GridFs
  import JsNumber

  /** The `metadata.version` of the first record, when that record exists,
      has metadata and its version is truthy: the only case where the stored
      version is consulted. */
  function TopVersion(lookup: Lookup): (top: Option<Value>)
    ensures top.Some? ==> Truthy(top.value)
    ensures (lookup.Success? && |lookup.value| > 0 && lookup.value[0].metadata.Some?
             && Truthy(Prop(lookup.value[0].metadata.value, VersionKey))) ==> top.Some?
    ensures top.Some? ==> lookup.Success? && |lookup.value| > 0 && lookup.value[0].metadata.Some?
                          && top.value == Prop(lookup.value[0].metadata.value, VersionKey)
  {
    if lookup.Success? && |lookup.value| > 0 && lookup.value[0].metadata.Some?
       && Truthy(Prop(lookup.value[0].metadata.value, VersionKey))
    then Some(Prop(lookup.value[0].metadata.value, VersionKey))
    else None
  }

  /** The version string the new upload is stored with. */
  function NextVersion(lookup: Lookup): (version: string)
    ensures lookup.Failure? ==> version == "1"
    ensures lookup.Success? && |lookup.value| == 0 ==> version == "1"
    ensures lookup.Success? && |lookup.value| > 0 && lookup.value[0].metadata.None? ==> version == "1"
    ensures (lookup.Success? && |lookup.value| > 0 && lookup.value[0].metadata.Some?
             && !Truthy(Prop(lookup.value[0].metadata.value, VersionKey))) ==> version == "1"
    ensures version != []
  {
    match TopVersion(lookup)
    case None => "1"
    case Some(top) => JsNumber.IntToString(ParseIntOrZero(top) + 1)
  }

  /** Otherwise the new version reads back, through `parseInt`, as one more
      than `parseInt(top) || 0`. */
  lemma NextVersionReadsBack(lookup: Lookup)
    requires TopVersion(lookup).Some?
    ensures JsNumber.ParseInt(NextVersion(lookup)) == Some(ParseIntOrZero(TopVersion(lookup).value) + 1)
  {
    JsNumber.ParseIntToString(ParseIntOrZero(TopVersion(lookup).value) + 1);
  }

  /** The new version parses to at least 1 unless the stored top version
      parses to a negative integer. */
  lemma NextVersionAtLeastOne(lookup: Lookup)
    requires TopVersion(lookup).Some? ==> ParseIntOrZero(TopVersion(lookup).value) >= 0
    ensures JsNumber.ParseInt(NextVersion(lookup)).Some?
    ensures JsNumber.ParseInt(NextVersion(lookup)).value >= 1
  {
    if TopVersion(lookup).None? {
      OneReadsBack();
    } else {
      NextVersionReadsBack(lookup);
    }
  }

  lemma OneReadsBack()
    ensures JsNumber.ParseInt("1") == Some(1)
  {
    JsNumber.ParseIntToString(1);
    OneDecimal();
  }

  lemma OneDecimal()
    ensures JsNumber.IntToString(1) == "1"
  {
    assert JsNumber.NatToDecimal(1) == [JsNumber.DigitChar(1)];
  }

  /** Only the first record is consulted: whatever follows it does not matter. */
  lemma OnlyFirstRecordCounts(first: FileRecord, rest1: seq<FileRecord>, rest2: seq<FileRecord>)
    ensures NextVersion(Success([first] + rest1)) == NextVersion(Success([first] + rest2))
  {
    assert ([first] + rest1)[0] == first == ([first] + rest2)[0];
  }

  /** Two uploads in a row under one name: when the lookup for the second one
      returns the first one's record on top, the version goes up by exactly one. */
  lemma {:induction false} ConsecutiveVersionsIncrease(earlier: Lookup, later: Lookup, md: Props)
    requires later.Success? && |later.value| > 0
    requires later.value[0].metadata == Some(md)
    requires Prop(md, VersionKey) == Str(NextVersion(earlier))
    ensures JsNumber.ParseInt(NextVersion(later)).Some?
    ensures JsNumber.ParseInt(NextVersion(earlier)).Some?
    ensures JsNumber.ParseInt(NextVersion(later)).value
            == JsNumber.ParseInt(NextVersion(earlier)).value + 1
  {
    var v := NextVersion(earlier);
    assert TopVersion(later) == Some(Str(v));
    if TopVersion(earlier).None? {
      OneReadsBack();
    } else {
      NextVersionReadsBack(earlier);
    }
    assert ToString(Str(v)) == v;
    NextVersionReadsBack(later);
  }

  function Stored(version: string): FileRecord {
    FileRecord(Some(map[VersionKey := Str(version)]))
  }

  /** With a stored top version `v`, the next version is `String(parseInt(v) + 1)`. */
  lemma NextAfterStored(v: string, rest: seq<FileRecord>, parsed: int)
    requires v != [] && JsNumber.ParseInt(v) == Some(parsed)
    ensures NextVersion(Success([Stored(v)] + rest)) == JsNumber.IntToString(parsed + 1)
  {
    var lookup: Lookup := Success([Stored(v)] + rest);
    var md := map[VersionKey := Str(v)];
    assert lookup.value[0].metadata == Some(md);
    assert Prop(md, VersionKey) == Str(v);
    assert TopVersion(lookup) == Some(Str(v));
    ParseStoredString(v, parsed);
  }

  lemma ParseStoredString(v: string, parsed: int)
    requires JsNumber.ParseInt(v) == Some(parsed)
    ensures ParseIntOrZero(Str(v)) == parsed
  {
    assert ToString(Str(v)) == v;
  }

  lemma SmallDecimals()
    ensures JsNumber.IntToString(9) == "9"
    ensures JsNumber.IntToString(-5) == "-5"
    ensures JsNumber.IntToString(-4) == "-4"
    ensures JsNumber.IntToString(10) == "10"
    ensures JsNumber.IntToString(32) == "32"
  {
    assert JsNumber.NatToDecimal(1) == "1";
    assert JsNumber.NatToDecimal(3) == "3";
    assert JsNumber.NatToDecimal(10) == JsNumber.NatToDecimal(1) + ['0'];
    assert JsNumber.NatToDecimal(32) == JsNumber.NatToDecimal(3) + ['2'];
  }

  lemma AfterNine(rest: seq<FileRecord>)
    ensures NextVersion(Success([Stored("9")] + rest)) == "10"
  {
    SmallDecimals();
    JsNumber.ParseIntToString(9);
    NextAfterStored("9", rest, 9);
  }

  /** Stored versions "9" and "10" come back as ["9", "10"] from a descending
      sort of strings ("9" > "10" character by character). The next version is
      then "10" again: one more than the first record, not than the largest. */
  lemma StringOrderRepeatsVersion()
    ensures NextVersion(Success([Stored("9"), Stored("10")])) == "10"
  {
    AfterNine([Stored("10")]);
    assert [Stored("9")] + [Stored("10")] == [Stored("9"), Stored("10")];
  }

  /** A top version that does not parse, or parses to 0, restarts at "1"
      (`parseInt(top) || 0` is 0 in both cases). */
  lemma UnparseableOrZeroRestarts(lookup: Lookup)
    requires TopVersion(lookup).Some?
    requires ParseIntOrZero(TopVersion(lookup).value) == 0
    ensures NextVersion(lookup) == "1"
  {
    NextVersionOfTop(lookup, 0);
    OneDecimal();
  }

  /** With a truthy top version whose `parseInt(...) || 0` is `n`, the new
      version is `String(n + 1)`. */
  lemma NextVersionOfTop(lookup: Lookup, n: int)
    requires TopVersion(lookup).Some? && ParseIntOrZero(TopVersion(lookup).value) == n
    ensures NextVersion(lookup) == JsNumber.IntToString(n + 1)
  {
  }

  /** A negative stored version is incremented as it is: "-5" is followed by "-4". */
  lemma NegativeVersionStaysNegative()
    ensures NextVersion(Success([Stored("-5")])) == "-4"
  {
    SmallDecimals();
    JsNumber.ParseIntToString(-5);
    NextAfterStored("-5", [], -5);
    assert [Stored("-5")] + [] == [Stored("-5")];
  }

  lemma ParseHex()
    ensures JsNumber.ParseInt("0x1F") == Some(31)
  {
    var s := "0x1F";
    assert JsNumber.SkipWhiteSpace(s, 0) == 0;
    assert s[0..] == s;
    assert JsNumber.HasHexPrefix(s, 0);
    assert JsNumber.DigitsEnd(s, 2, JsNumber.Hexadecimal) == 4;
    assert JsNumber.DigitsValue(s, 2, 3, JsNumber.Hexadecimal) == 1;
    assert JsNumber.DigitsValue(s, 2, 4, JsNumber.Hexadecimal) == 31;
  }

  /** `parseInt` honours a hexadecimal prefix: "0x1F" is 31, so "32" follows. */
  lemma HexVersionIsReadInRadix16()
    ensures NextVersion(Success([Stored("0x1F")])) == "32"
  {
    SmallDecimals();
    ParseHex();
    NextAfterStored("0x1F", [], 31);
    assert [Stored("0x1F")] + [] == [Stored("0x1F")];
  }
}
