/**
 * indj/utils.py: the version tuple, its hyphenated text, the data-file name
 * derived from it, and the parsing of a typed version string back into a tuple.
 */
module Utils {
  import opened Strings
  import opened Paths

  /** One item of a Django version tuple such as `(1, 8, 1, 'final', 0)`. */
  datatype VersionPart = Number(value: int) | Label(text: string)

  type Version = seq<VersionPart>

  /** `"{0}".format(part)`: a number prints in decimal and reads back as itself; a label prints as it is. */
  function PartText(p: VersionPart): (r: string)
    ensures p.Number? && p.value >= 0 ==> IsCanonicalDigits(r) && DigitsValue(r) == p.value
    ensures p.Number? && p.value < 0 ==> |r| > 1 && r[0] == '-' && IsCanonicalDigits(r[1..]) && DigitsValue(r[1..]) == -p.value
    ensures p.Label? ==> r == p.text
  {
    match p
    case Number(n) =>
      var digits := NatToString(if n < 0 then -n else n);
      NatToStringValue(if n < 0 then -n else n);
      assert n < 0 ==> IntToString(n)[1..] == digits;
      IntToString(n)
    case Label(t) => t
  }

  function PartTexts(v: Version): seq<string> {
    seq(|v|, i requires 0 <= i < |v| => PartText(v[i]))
  }

  /** `version_as_string`: the parts' texts joined by `-`. */
  function VersionAsString(v: Version): (r: string)
    ensures v == [] ==> r == ""
  {
    JoinWith('-', PartTexts(v))
  }

  /** The name of the data file of a version: `django-<version>.json`. */
  function DataFilename(v: Version): string {
    "django-" + VersionAsString(v) + ".json"
  }

  /** `data_filepath_from_version`: the data file name joined onto a directory. */
  function DataFilepathFromVersion(directory: string, v: Version): (r: string)
    ensures r == directory + DataFilename(v) || r == directory + [Sep] + DataFilename(v)
    ensures r == directory + DataFilename(v) <==> directory == [] || EndsWith(directory, [Sep])
  {
    assert DataFilename(v)[0] == 'd';
    PathJoin(directory, DataFilename(v))
  }

  /** Two versions share a data file in a directory only when their texts agree. */
  lemma DataFilepathInjective(directory: string, v1: Version, v2: Version)
    requires DataFilepathFromVersion(directory, v1) == DataFilepathFromVersion(directory, v2)
    ensures VersionAsString(v1) == VersionAsString(v2)
  {
    var n1, n2 := DataFilename(v1), DataFilename(v2);
    assert n1[0] == 'd' && n2[0] == 'd';
    PathJoinInjective(directory, n1, n2);
    assert VersionAsString(v1) == n1[7..|n1| - 5];
    assert VersionAsString(v2) == n2[7..|n2| - 5];
  }

  /** The data file sits directly in the directory, under its own name. */
  lemma DataFilepathBasename(directory: string, v: Version)
    requires Sep !in VersionAsString(v)
    ensures Basename(DataFilepathFromVersion(directory, v)) == DataFilename(v)
  {
    var name := DataFilename(v);
    assert forall k :: 0 <= k < |name| ==> name[k] != Sep by {
      forall k | 0 <= k < |name| ensures name[k] != Sep {
        if 7 <= k < 7 + |VersionAsString(v)| {
          assert name[k] == VersionAsString(v)[k - 7];
        }
      }
    }
    PathJoinBasename(directory, name);
  }

  predicate IsVersionSeparator(c: char) {
    c == '.' || c == '-'
  }

  predicate HasNoSeparator(s: string) {
    forall i :: 0 <= i < |s| ==> !IsVersionSeparator(s[i])
  }

  function CountSeparators(s: string): nat {
    if s == [] then 0
    else (if IsVersionSeparator(s[0]) then 1 else 0) + CountSeparators(s[1..])
  }

  /** `re.split(r'[\.-]', s)`: the fields between separators, empty ones included, one more than there are separators. */
  function SplitFields(s: string): (fields: seq<string>)
    ensures |fields| == CountSeparators(s) + 1
    ensures forall k :: 0 <= k < |fields| ==> HasNoSeparator(fields[k])
  {
    if s == [] then [""]
    else
      var rest := SplitFields(s[1..]);
      if IsVersionSeparator(s[0]) then [""] + rest
      else [[s[0]] + rest[0]] + rest[1..]
  }

  /** Joining the fields with `-` gives back the text with every `.` turned into `-`. */
  lemma {:induction false} SplitFieldsJoin(s: string)
    ensures JoinWith('-', SplitFields(s)) == ReplaceChar(s, '.', '-')
    decreases |s|
  {
    if s != [] {
      var rest := SplitFields(s[1..]);
      SplitFieldsJoin(s[1..]);
      var tail := ReplaceChar(s[1..], '.', '-');
      if IsVersionSeparator(s[0]) {
        assert SplitFields(s) == [""] + rest;
        assert ([""] + rest)[1..] == rest;
        assert ReplaceChar(s, '.', '-') == ['-'] + tail;
      } else {
        assert SplitFields(s) == [[s[0]] + rest[0]] + rest[1..];
        JoinWithPrepend('-', [s[0]], rest[0], rest[1..]);
        assert [rest[0]] + rest[1..] == rest;
        assert ReplaceChar(s, '.', '-') == [s[0]] + tail;
      }
    }
  }

  /** `.` and `-` split alike. */
  lemma {:induction false} SplitFieldsReplace(s: string)
    ensures SplitFields(ReplaceChar(s, '.', '-')) == SplitFields(s)
    decreases |s|
  {
    if s != [] {
      var r := ReplaceChar(s, '.', '-');
      assert r[1..] == ReplaceChar(s[1..], '.', '-');
      SplitFieldsReplace(s[1..]);
    }
  }

  /** Text without separators in front of a string extends its first field. */
  lemma {:induction false} SplitFieldsPrefix(a: string, b: string)
    requires HasNoSeparator(a)
    ensures SplitFields(a + b) == [a + SplitFields(b)[0]] + SplitFields(b)[1..]
    decreases |a|
  {
    if a != [] {
      assert (a + b)[1..] == a[1..] + b;
      SplitFieldsPrefix(a[1..], b);
      assert [a[0]] + (a[1..] + SplitFields(b)[0]) == a + SplitFields(b)[0];
    } else {
      var f := SplitFields(b);
      assert f == [f[0]] + f[1..];
      assert a + b == b && a + f[0] == f[0];
    }
  }

  /** Splitting separator-free parts joined by `-` gives the parts back. */
  lemma {:induction false} SplitJoinedFields(parts: seq<string>)
    requires |parts| >= 1
    requires forall k :: 0 <= k < |parts| ==> HasNoSeparator(parts[k])
    ensures SplitFields(JoinWith('-', parts)) == parts
    decreases |parts|
  {
    if |parts| == 1 {
      SplitFieldsPrefix(parts[0], []);
      assert parts[0] + [] == parts[0];
    } else {
      var tail := JoinWith('-', parts[1..]);
      SplitJoinedFields(parts[1..]);
      assert JoinWith('-', parts) == parts[0] + (['-'] + tail);
      SplitFieldsPrefix(parts[0], ['-'] + tail);
      assert (['-'] + tail)[1..] == tail;
      assert parts[0] + "" == parts[0];
      assert parts == [parts[0]] + parts[1..];
    }
  }

  /** `int(x) if x.isdigit() else x`. */
  function ParsePart(field: string): VersionPart {
    if IsAllDigits(field) then Number(DigitsValue(field)) else Label(field)
  }

  /** `version_as_tuple`: one part per `.`- or `-`-separated field. */
  function VersionAsTuple(s: string): (r: Version)
    ensures IsTypeableVersion(r)
  {
    var fields := SplitFields(s);
    seq(|fields|, i requires 0 <= i < |fields| => ParsePart(fields[i]))
  }

  /** The tuple is never empty: it has one part per field, a number with the field's value exactly where the field is all digits, the field's own text elsewhere. */
  lemma VersionAsTupleParts(s: string)
    ensures |VersionAsTuple(s)| == CountSeparators(s) + 1
    ensures forall i :: 0 <= i < |VersionAsTuple(s)| ==>
      (VersionAsTuple(s)[i].Number? <==> IsAllDigits(SplitFields(s)[i]))
    ensures forall i :: 0 <= i < |VersionAsTuple(s)| ==>
      PartText(VersionAsTuple(s)[i]) == SplitFields(s)[i] || !IsCanonicalDigits(SplitFields(s)[i])
    ensures forall i :: 0 <= i < |VersionAsTuple(s)| ==>
      && (VersionAsTuple(s)[i].Label? ==> VersionAsTuple(s)[i].text == SplitFields(s)[i])
      && (VersionAsTuple(s)[i].Number? ==> VersionAsTuple(s)[i].value == DigitsValue(SplitFields(s)[i]))
  {
    var fields := SplitFields(s);
    forall i | 0 <= i < |fields| && IsCanonicalDigits(fields[i])
      ensures PartText(VersionAsTuple(s)[i]) == fields[i]
    {
      DigitsValueText(fields[i]);
    }
  }

  /** Every all-digit field is written without a leading zero. */
  ghost predicate HasCanonicalNumbers(s: string) {
    forall k :: 0 <= k < |SplitFields(s)| && IsAllDigits(SplitFields(s)[k]) ==> IsCanonicalDigits(SplitFields(s)[k])
  }

  /** Parsing then printing a version gives the typed text back, with `.` written as `-`. */
  lemma VersionTextRoundTrip(s: string)
    requires HasCanonicalNumbers(s)
    ensures VersionAsString(VersionAsTuple(s)) == ReplaceChar(s, '.', '-')
  {
    var fields := SplitFields(s);
    var v := VersionAsTuple(s);
    forall k | 0 <= k < |fields| ensures PartTexts(v)[k] == fields[k] {
      if IsAllDigits(fields[k]) { DigitsValueText(fields[k]); }
    }
    assert PartTexts(v) == fields;
    SplitFieldsJoin(s);
  }

  /** The fields of `1.02`; the literal comes in through the precondition. */
  lemma LeadingZeroFields(s: string)
    requires s == "1.02"
    ensures SplitFields(s) == ["1", "02"]
  {
    var fields: seq<string> := ["1", "02"];
    SplitJoinedFields(fields);
    assert JoinWith('-', fields) == "1-02";
    var r := ReplaceChar(s, '.', '-');
    assert forall i :: 0 <= i < |s| ==> r[i] == "1-02"[i];
    SplitFieldsJoin(s);
    SplitFieldsReplace(s);
  }

  /** A leading zero is lost on the way through, which is why the round trip above needs `HasCanonicalNumbers`. */
  lemma LeadingZeroLost(s: string)
    requires s == "1.02"
    ensures VersionAsTuple(s) == [Number(1), Number(2)]
    ensures VersionAsString(VersionAsTuple(s)) == "1-2"
  {
    LeadingZeroFields(s);
    assert DigitsValue("02") == 2 by {
      assert "02"[..1] == "0";
    }
    var v := VersionAsTuple(s);
    assert v == [Number(1), Number(2)];
    assert PartTexts(v) == ["1", "2"] by {
      assert NatToString(1) == "1" && NatToString(2) == "2";
    }
    assert JoinWith('-', ["1", "2"]) == "1" + "-" + "2";
  }

  /** A version tuple can be typed back in: each part prints as a field of its own and parses to itself. */
  ghost predicate IsTypeableVersion(v: Version) {
    && |v| > 0
    && forall i :: 0 <= i < |v| ==>
        match v[i]
        case Number(n) => n >= 0
        case Label(t) => HasNoSeparator(t) && !IsAllDigits(t)
  }

  /** Printing then parsing a version gives it back. */
  lemma VersionTupleRoundTrip(v: Version)
    requires IsTypeableVersion(v)
    ensures VersionAsTuple(VersionAsString(v)) == v
  {
    var texts := PartTexts(v);
    forall k | 0 <= k < |texts| ensures HasNoSeparator(texts[k]) && ParsePart(texts[k]) == v[k] {
      match v[k]
      case Number(n) =>
        NatToStringValue(n);
      case Label(t) =>
    }
    SplitJoinedFields(texts);
  }

  /** Parsing is stable: printing a parsed version and parsing it again gives the same tuple. */
  lemma VersionAsTupleStable(s: string)
    ensures VersionAsTuple(VersionAsString(VersionAsTuple(s))) == VersionAsTuple(s)
  {
    VersionTupleRoundTrip(VersionAsTuple(s));
  }

  /** The empty tuple prints as the empty text, which parses as one empty label: `VersionTupleRoundTrip` needs a non-empty tuple. */
  lemma EmptyVersionNotRestored()
    ensures VersionAsString([]) == ""
    ensures VersionAsTuple(VersionAsString([])) == [Label("")]
  {
    assert SplitFields("") == [""];
    assert !IsAllDigits("");
  }

  /** `.` and `-` are interchangeable in a typed version. */
  lemma VersionAsTupleReplace(s: string)
    ensures VersionAsTuple(ReplaceChar(s, '.', '-')) == VersionAsTuple(s)
  {
    SplitFieldsReplace(s);
  }

  /** The text of `(1, 2, 3, 'final', 4)` in the test suite. */
  lemma VersionAsStringExample(v: Version)
    requires v == [Number(1), Number(2), Number(3), Label("final"), Number(4)]
    ensures VersionAsString(v) == "1-2-3-final-4"
  {
    var texts: seq<string> := ["1", "2", "3", "final", "4"];
    assert JoinWith('-', texts) == "1-2-3-final-4" by {
      assert JoinWith('-', texts[3..]) == "final-4";
      assert JoinWith('-', texts[1..]) == "2-3-final-4";
    }
    assert PartTexts(v) == texts by {
      assert NatToString(1) == "1" && NatToString(2) == "2" && NatToString(3) == "3" && NatToString(4) == "4";
    }
  }

  /** A typed version of the test suite. */
  lemma VersionAsTupleExample()
    ensures VersionAsTuple("1-2-beta-4") == [Number(1), Number(2), Label("beta"), Number(4)]
  {
    var w := [Number(1), Number(2), Label("beta"), Number(4)];
    assert VersionAsString(w) == "1-2-beta-4" by {
      assert PartTexts(w) == ["1", "2", "beta", "4"];
    }
    assert IsTypeableVersion(w) by {
      assert !IsDigit("beta"[0]);
    }
    VersionTupleRoundTrip(w);
  }

  /** The data file of `(1, 2, 3, 'final', 4)` in `/foobar`; the literals come in through the preconditions. */
  lemma DataFilepathExample(directory: string, v: Version)
    requires directory == "/foobar"
    requires v == [Number(1), Number(2), Number(3), Label("final"), Number(4)]
    ensures DataFilepathFromVersion(directory, v) == "/foobar/django-1-2-3-final-4.json"
  {
    VersionAsStringExample(v);
    assert DataFilename(v) == "django-" + "1-2-3-final-4" + ".json";
    assert directory != [] && !EndsWith(directory, [Sep]);
  }

  /** The dotted form of the typed version below, with every `.` written as `-`. */
  lemma DottedVersionText(s: string, t: string)
    requires s == "1.2.3-final.4" && t == "1-2-3-final-4"
    ensures ReplaceChar(s, '.', '-') == t
  {
    var r := ReplaceChar(s, '.', '-');
    assert forall i :: 0 <= i < |s| ==> r[i] == t[i];
  }

  /** A hyphenated version of the test suite: the text `VersionAsStringExample` prints parses back. */
  lemma HyphenatedVersionExample()
    ensures VersionAsTuple("1-2-3-final-4") == [Number(1), Number(2), Number(3), Label("final"), Number(4)]
  {
    var w := [Number(1), Number(2), Number(3), Label("final"), Number(4)];
    VersionAsStringExample(w);
    assert IsTypeableVersion(w) by {
      assert !IsDigit("final"[0]);
    }
    VersionTupleRoundTrip(w);
  }

  /** A typed version of the test suite with both separators; the literal comes in through the precondition. */
  lemma DottedVersionExample(s: string)
    requires s == "1.2.3-final.4"
    ensures VersionAsTuple(s) == [Number(1), Number(2), Number(3), Label("final"), Number(4)]
  {
    DottedVersionText(s, "1-2-3-final-4");
    VersionAsTupleReplace(s);
    HyphenatedVersionExample();
  }
}
