/** How the profile page turns record values into text and back: the
    read-only `formatValue` (src/components/Profile.tsx:12-16) and the
    control of an `EditableField` (src/components/Profile.tsx:81-107). */
module ProfileDisplay {
  import opened Wrappers
  import opened Json

  // ---------------------------------------------------------------------
  // Decimal text of an integer (`String(n)` for integral numbers)
  // ---------------------------------------------------------------------

  function DigitChar(d: nat): (c: char)
    requires d < 10
    ensures IsDigit(c) && c as int - '0' as int == d
  {
    (d + '0' as int) as char
  }

  /** The decimal digits of `n`, most significant first, without leading
      zeros. */
  function NatToString(n: nat): (r: string)
    ensures r != []
    ensures forall i :: 0 <= i < |r| ==> IsDigit(r[i])
    ensures r[0] == '0' ==> n == 0 && r == "0"
  {
    if n < 10 then [DigitChar(n)] else NatToString(n / 10) + [DigitChar(n % 10)]
  }

  /** `String(i)` for an integer: a minus sign before the digits of a
      negative number. */
  function IntToString(i: int): (r: string)
    ensures r != [] && r != "-"
    ensures r[0] == '-' <==> i < 0
  {
    if i < 0 then "-" + NatToString(-i) else NatToString(i)
  }

  function DigitValue(c: char): (d: nat)
    requires IsDigit(c)
  {
    c as int - '0' as int
  }

  /** The value of a string of decimal digits. */
  function ParseNat(s: string): (n: nat)
    requires forall i :: 0 <= i < |s| ==> IsDigit(s[i])
  {
    if s == [] then 0
    else 10 * ParseNat(s[..|s| - 1]) + DigitValue(s[|s| - 1])
  }

  /** The value of an optionally signed string of decimal digits. */
  function ParseInt(s: string): (r: Option<int>)
    ensures r.Some? ==> s != [] && (r.value < 0 ==> s[0] == '-')
  {
    if s != [] && s[0] == '-' then
      if s[1..] != [] && forall i :: 1 <= i < |s| ==> IsDigit(s[i]) then Some(-(ParseNat(s[1..]) as int)) else None
    else if s != [] && forall i :: 0 <= i < |s| ==> IsDigit(s[i]) then Some(ParseNat(s))
    else None
  }

  lemma {:induction false} ParseNatToString(n: nat)
    ensures ParseNat(NatToString(n)) == n
  {
    if n >= 10 {
      ParseNatToString(n / 10);
      var s := NatToString(n);
      assert s[..|s| - 1] == NatToString(n / 10);
    }
  }

  /** The text of an integer reads back as the same integer. */
  lemma IntToStringRoundTrip(i: int)
    ensures ParseInt(IntToString(i)) == Some(i)
  {
    if i < 0 {
      ParseNatToString(-i);
      assert IntToString(i)[1..] == NatToString(-i);
    } else {
      ParseNatToString(i);
    }
  }

  // ---------------------------------------------------------------------
  // formatValue
  // ---------------------------------------------------------------------

  /** The values a read-only field can show: `undefined`, `null`, a boolean,
      a number or a string. */
  predicate IsScalar(v: Option<Value>)
  {
    v.None? || v.value.Null? || v.value.Bool? || v.value.Int? || v.value.Str?
  }

  /** `null`, `undefined` and the empty string show as a dash. */
  predicate Blank(v: Option<Value>)
  {
    v.None? || v.value.Null? || v.value == Str("")
  }

  const Dash: string := "—"

  /** `formatValue`: a dash for a blank value, `Yes`/`No` for a boolean, the
      text of anything else. The result is never empty, reads back as the
      number it shows, and is the dash only for a blank value or a string
      that is itself the dash. */
  function FormatValue(v: Option<Value>): (r: string)
    requires IsScalar(v)
    ensures r != []
    ensures Blank(v) ==> r == Dash
    ensures r == Dash <==> Blank(v) || v == Some(Str(Dash))
    ensures v.Some? && v.value.Bool? ==> (r == "Yes" <==> v.value.b) && (r == "No" <==> !v.value.b)
    ensures v.Some? && v.value.Int? ==> ParseInt(r) == Some(v.value.i)
    ensures v.Some? && v.value.Str? && v.value.s != "" ==> r == v.value.s
  {
    if Blank(v) then Dash
    else match v.value
      case Bool(b) => if b then "Yes" else "No"
      case Int(i) => IntToStringRoundTrip(i); IntToString(i)
      case Str(s) => s
  }

  // ---------------------------------------------------------------------
  // EditableField
  // ---------------------------------------------------------------------

  /** The `type` of an editable field. */
  datatype FieldKind = Text | Date | Boolean

  /** `path.join('-')`. */
  function Join(path: seq<string>): (r: string)
    ensures |path| == 1 ==> r == path[0]
    ensures |path| > 1 ==> '-' in r
  {
    if path == [] then ""
    else if |path| == 1 then path[0]
    else path[0] + "-" + Join(path[1..])
  }

  /** The control id of an editable field: its path joined by dashes. */
  function FieldId(path: seq<string>): (id: string)
    ensures |path| == 1 ==> id == path[0]
  {
    Join(path)
  }

  /** `s.split('-')`: the pieces between dashes, at least one. */
  function Split(s: string): (r: seq<string>)
    ensures r != []
  {
    if s == [] then [""]
    else if s[0] == '-' then [""] + Split(s[1..])
    else var rest := Split(s[1..]); [[s[0]] + rest[0]] + rest[1..]
  }

  predicate DashFree(key: string)
  {
    '-' !in key
  }

  lemma {:induction false} SplitDashFreePrefix(a: string, s: string)
    requires DashFree(a)
    ensures Split(a + s) == [a + Split(s)[0]] + Split(s)[1..]
  {
    if a != [] {
      assert a[0] in a;
      assert (a + s)[0] == a[0] != '-';
      assert (a + s)[1..] == a[1..] + s;
      assert DashFree(a[1..]) by {
        forall i | 0 <= i < |a[1..]| ensures a[1..][i] != '-' {
          assert a[1..][i] == a[i + 1] && a[i + 1] in a;
        }
      }
      SplitDashFreePrefix(a[1..], s);
      var rest := Split(a[1..] + s);
      assert Split(a + s) == [[a[0]] + rest[0]] + rest[1..];
      assert [a[0]] + (a[1..] + Split(s)[0]) == a + Split(s)[0];
    } else {
      assert a + s == s && a + Split(s)[0] == Split(s)[0];
      assert Split(s) == [Split(s)[0]] + Split(s)[1..];
    }
  }

  /** The id of a field whose keys have no dash splits back into its path,
      so two such fields never share an id. */
  lemma {:induction false} FieldIdRoundTrip(path: seq<string>)
    requires path != []
    requires forall i :: 0 <= i < |path| ==> DashFree(path[i])
    ensures Split(FieldId(path)) == path
  {
    if |path| == 1 {
      SplitDashFreePrefix(path[0], "");
      assert path[0] + "" == path[0];
    } else {
      var tail := Join(path[1..]);
      FieldIdRoundTrip(path[1..]);
      assert ("-" + tail)[1..] == tail;
      assert Split("-" + tail) == [""] + path[1..];
      SplitDashFreePrefix(path[0], "-" + tail);
      assert path[0] + "-" + tail == path[0] + ("-" + tail);
      assert Split(FieldId(path)) == [path[0] + ""] + path[1..];
      assert path[0] + "" == path[0];
    }
  }

  /** Distinct dash-free paths get distinct ids. */
  lemma FieldIdInjective(p: seq<string>, q: seq<string>)
    requires p != [] && q != []
    requires forall i :: 0 <= i < |p| ==> DashFree(p[i])
    requires forall i :: 0 <= i < |q| ==> DashFree(q[i])
    requires FieldId(p) == FieldId(q)
    ensures p == q
  {
    FieldIdRoundTrip(p);
    FieldIdRoundTrip(q);
  }

  /** `rawValue ?? (type === 'boolean' ? false : '')`: the value the control
      starts from. It is never `null`; a stored value is kept as it is, a
      missing or `null` one becomes `false` for a boolean field and `''` for
      any other. */
  function EditorValue(raw: Option<Value>, kind: FieldKind): (r: Value)
    ensures !r.Null?
    ensures raw.Some? && !raw.value.Null? ==> r == raw.value
    ensures (raw.None? || raw.value.Null?) ==> (r == Bool(false) <==> kind == Boolean)
    ensures (raw.None? || raw.value.Null?) ==> (r == Str("") <==> kind != Boolean)
  {
    if raw.Some? && !raw.value.Null? then raw.value
    else if kind == Boolean then Bool(false)
    else Str("")
  }

  /** `String(currentValue)`: the text the control holds. */
  function ControlText(v: Value): (r: string)
    requires v.Bool? || v.Int? || v.Str?
    ensures v.Bool? ==> (r == "true" <==> v.b) && (r == "false" <==> !v.b)
    ensures v.Int? ==> ParseInt(r) == Some(v.i)
    ensures v.Str? ==> r == v.s
  {
    match v
    case Bool(b) => if b then "true" else "false"
    case Int(i) => IntToStringRoundTrip(i); IntToString(i)
    case Str(s) => s
  }

  /** The value `onChange` passes to `handleFieldChange`: for a boolean
      field, whether the selected option is `true`; for any other, the text
      itself. */
  function InputValue(kind: FieldKind, text: string): (r: Value)
    ensures kind == Boolean ==> r.Bool? && (r.b <==> text == "true")
    ensures kind != Boolean ==> r.Str? && r.s == text
  {
    if kind == Boolean then Bool(text == "true") else Str(text)
  }

  /** A field whose stored value matches its kind (a boolean for a boolean
      field, a string or nothing for the others) hands the same value back
      when its control is changed to the text it already shows. */
  lemma EditorRoundTrip(raw: Option<Value>, kind: FieldKind)
    requires raw.None? || raw.value.Null? || (if kind == Boolean then raw.value.Bool? else raw.value.Str?)
    ensures InputValue(kind, ControlText(EditorValue(raw, kind))) == EditorValue(raw, kind)
  {
  }

  /** A number stored under a text field comes back as its text: editing
      turns it into a string. */
  lemma EditorNumberBecomesText(i: int, kind: FieldKind)
    requires kind != Boolean
    ensures InputValue(kind, ControlText(EditorValue(Some(Int(i)), kind))) == Str(IntToString(i))
    ensures InputValue(kind, ControlText(EditorValue(Some(Int(i)), kind))) != Int(i)
  {
  }
}
