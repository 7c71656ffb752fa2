/**
 * Comma-separated values as section 2 of RFC 4180 describes them: records
 * of fields separated by commas, one record per line, a field either bare
 * or enclosed in double quotes with each double quote inside it doubled
 * (rule 7). Lines end in a single line feed, the `Environment.NewLine` that
 * `StringBuilder.AppendLine` writes on Linux, where the RFC writes CRLF.
 * A reader is given beside the writer to state what the written text means.
 */
module Csv {
  import opened Wrappers

  /** Every `"` doubled. */
  function Escape(s: string): (r: string)
    ensures |r| >= |s|
  {
    if s == [] then []
    else (if s[0] == '"' then "\"\"" else [s[0]]) + Escape(s[1..])
  }

  /** A field as written: bare, or enclosed in quotes with its quotes doubled. */
  datatype Field = Bare(text: string) | Quoted(text: string)

  /** A character that may stand in an unquoted field. */
  predicate SafeChar(c: char) {
    c != ',' && c != '"' && c != '\n' && c != '\r'
  }

  /** Text that may stand unquoted: no comma, quote or line break. */
  predicate BareSafe(s: string) {
    s == [] || (SafeChar(s[0]) && BareSafe(s[1..]))
  }

  /** The same, character by character. */
  lemma {:induction false} BareSafeChars(s: string)
    ensures BareSafe(s) <==> forall i :: 0 <= i < |s| ==> SafeChar(s[i])
  {
    if s != [] {
      BareSafeChars(s[1..]);
      assert forall i :: 1 <= i < |s| ==> s[i] == s[1..][i - 1];
    }
  }

  predicate FieldOk(f: Field) {
    f.Bare? ==> BareSafe(f.text)
  }

  /** A record the writer can write and the reader tell apart: at least one field, bare fields safe. */
  predicate RecordOk(fs: seq<Field>) {
    |fs| >= 1 && forall i :: 0 <= i < |fs| ==> FieldOk(fs[i])
  }

  function RenderField(f: Field): string {
    match f
    case Bare(t) => t
    case Quoted(t) => "\"" + Escape(t) + "\""
  }

  /** The fields separated by commas, written left to right as a string builder appends them. */
  function JoinFields(fs: seq<Field>): string {
    if fs == [] then []
    else if |fs| == 1 then RenderField(fs[0]) else JoinFields(fs[..|fs| - 1]) + "," + RenderField(fs[|fs| - 1])
  }

  /** The same text read from the front: the first field, a comma, the rest. */
  lemma {:induction false} JoinFieldsFront(fs: seq<Field>)
    requires |fs| >= 2
    ensures JoinFields(fs) == RenderField(fs[0]) + "," + JoinFields(fs[1..])
    decreases |fs|
  {
    var n := |fs|;
    if n == 2 {
      JoinTwo(fs[0], fs[1]);
      assert fs == [fs[0], fs[1]] && fs[1..] == [fs[1]];
    } else {
      var init, tail := fs[..n - 1], fs[1..];
      JoinFieldsFront(init);
      InitOfTail(fs);
      var mid := init[1..];
      JoinFieldsBack(fs);
      JoinFieldsBack(tail);
      Regroup(RenderField(fs[0]) + ",", JoinFields(mid), ",", RenderField(fs[n - 1]));
    }
  }

  /** Two fields: the first, a comma, the second. */
  lemma JoinTwo(a: Field, b: Field)
    ensures JoinFields([a, b]) == RenderField(a) + "," + JoinFields([b])
  {
    assert [a, b][..1] == [a];
  }

  /** The last field is appended after a comma. */
  lemma JoinFieldsBack(fs: seq<Field>)
    requires |fs| >= 2
    ensures JoinFields(fs) == JoinFields(fs[..|fs| - 1]) + "," + RenderField(fs[|fs| - 1])
  {
  }

  /** Dropping the last and then the first element is dropping the first and then the last. */
  lemma InitOfTail<T>(s: seq<T>)
    requires |s| >= 3
    ensures s[..|s| - 1][1..] == s[1..][..|s| - 2]
    ensures s[..|s| - 1][0] == s[0] && s[1..][|s| - 2] == s[|s| - 1]
    ensures |s[..|s| - 1]| >= 2 && |s[1..]| >= 2
  {
  }

  lemma Regroup(a: string, j: string, c: string, z: string)
    ensures a + j + c + z == a + (j + c + z)
  {
  }

  /** One line. */
  function RenderRecord(fs: seq<Field>): string {
    JoinFields(fs) + "\n"
  }

  /** The records, one line each, in order. */
  function RenderAll(rs: seq<seq<Field>>): string {
    if rs == [] then [] else RenderRecord(rs[0]) + RenderAll(rs[1..])
  }

  /** Appending a record appends its line. */
  lemma {:induction false} RenderAllAppend(rs: seq<seq<Field>>, r: seq<Field>)
    ensures RenderAll(rs + [r]) == RenderAll(rs) + RenderRecord(r)
  {
    if rs == [] {
      assert rs + [r] == [r];
      assert [r][1..] == [];
    } else {
      assert (rs + [r])[1..] == rs[1..] + [r];
      RenderAllAppend(rs[1..], r);
    }
  }

  // ---------------------------------------------------------------- reader

  /** The text inside quotes up to the closing quote, and what follows it; `""` reads as one quote. */
  function ParseQuotedBody(s: string): (r: Option<(string, string)>)
    ensures r.Some? ==> |r.value.1| < |s|
  {
    if s == [] then None
    else if s[0] == '"' then
      (if |s| >= 2 && s[1] == '"' then
         match ParseQuotedBody(s[2..])
         case None => None
         case Some(p) => Some(("\"" + p.0, p.1))
       else Some(([], s[1..])))
    else
      match ParseQuotedBody(s[1..])
      case None => None
      case Some(p) => Some(([s[0]] + p.0, p.1))
  }

  /** A bare field runs to the next comma or line feed. */
  function ParseBare(s: string): (r: (string, string))
    ensures |r.1| <= |s|
  {
    if s == [] || s[0] == ',' || s[0] == '\n' then ([], s)
    else var p := ParseBare(s[1..]); ([s[0]] + p.0, p.1)
  }

  function ParseField(s: string): (r: Option<(Field, string)>)
    ensures r.Some? ==> |r.value.1| <= |s|
  {
    if s != [] && s[0] == '"' then
      match ParseQuotedBody(s[1..])
      case None => None
      case Some(p) => Some((Quoted(p.0), p.1))
    else
      var p := ParseBare(s);
      Some((Bare(p.0), p.1))
  }

  /** The fields of one line and the text after its line feed. */
  function ParseRecord(s: string): (r: Option<(seq<Field>, string)>)
    ensures r.Some? ==> |r.value.1| < |s|
    decreases |s|
  {
    match ParseField(s)
    case None => None
    case Some(p) =>
      if p.1 == [] then None
      else if p.1[0] == '\n' then Some(([p.0], p.1[1..]))
      else if p.1[0] == ',' then
        match ParseRecord(p.1[1..])
        case None => None
        case Some(q) => Some(([p.0] + q.0, q.1))
      else None
  }

  /** The records of a whole text, each ended by a line feed. */
  function ParseAll(s: string): Option<seq<seq<Field>>>
    decreases |s|
  {
    if s == [] then Some([])
    else match ParseRecord(s)
      case None => None
      case Some(p) =>
        match ParseAll(p.1)
        case None => None
        case Some(rs) => Some([p.0] + rs)
  }

  // ---------------------------------------------------------------- round trip

  /** What may follow a field: nothing, a comma or a line feed. */
  predicate FieldEnd(rest: string) {
    rest == [] || rest[0] == ',' || rest[0] == '\n'
  }

  /** Un-doubling the quotes of an escaped text gives it back, up to the closing quote. */
  lemma {:induction false} QuotedBodyParses(t: string, rest: string)
    requires FieldEnd(rest)
    ensures ParseQuotedBody(Escape(t) + "\"" + rest) == Some((t, rest))
  {
    var s := Escape(t) + "\"" + rest;
    if t == [] {
      assert s == "\"" + rest;
      assert s[1..] == rest;
    } else {
      QuotedBodyParses(t[1..], rest);
      var tail := Escape(t[1..]) + "\"" + rest;
      if t[0] == '"' {
        assert s == "\"\"" + tail;
        assert s[2..] == tail;
        assert "\"" + t[1..] == t;
      } else {
        assert s == [t[0]] + tail;
        assert s[1..] == tail;
        assert [t[0]] + t[1..] == t;
      }
    }
  }

  lemma {:induction false} BareParses(t: string, rest: string)
    requires BareSafe(t) && FieldEnd(rest)
    ensures ParseBare(t + rest) == (t, rest)
  {
    if t == [] {
      assert t + rest == rest;
    } else {
      BareParses(t[1..], rest);
      assert (t + rest)[1..] == t[1..] + rest;
      assert [t[0]] + t[1..] == t;
    }
  }

  /** A written field reads back as itself, whatever line follows it. */
  lemma FieldParses(f: Field, rest: string)
    requires FieldOk(f) && FieldEnd(rest)
    ensures ParseField(RenderField(f) + rest) == Some((f, rest))
  {
    match f
    case Bare(t) =>
      BareParses(t, rest);
    case Quoted(t) =>
      var s := RenderField(f) + rest;
      QuotedBodyParses(t, rest);
      assert s == "\"" + (Escape(t) + "\"" + rest);
      assert s[1..] == Escape(t) + "\"" + rest;
  }

  /** A line of several fields is its first field, a comma and the line of the others. */
  lemma RecordText(fs: seq<Field>, rest: string)
    requires |fs| >= 2
    ensures RenderRecord(fs) + rest == RenderField(fs[0]) + ("," + (RenderRecord(fs[1..]) + rest))
  {
    JoinFieldsFront(fs);
  }

  /** A line of one field is that field and the line feed. */
  lemma OneFieldLine(f: Field, rest: string)
    ensures RenderRecord([f]) + rest == RenderField(f) + ("\n" + rest)
  {
  }

  /** A field followed by a line feed ends the line. */
  lemma ParseLastField(f: Field, rest: string)
    requires FieldOk(f)
    ensures ParseRecord(RenderField(f) + ("\n" + rest)) == Some(([f], rest))
  {
    FieldParses(f, "\n" + rest);
    assert ("\n" + rest)[1..] == rest;
  }

  /** A field followed by a comma is the first of the fields read after the comma. */
  lemma ParseAfterComma(f: Field, tail: string)
    requires FieldOk(f)
    ensures ParseRecord(RenderField(f) + ("," + tail)) ==
      match ParseRecord(tail)
      case None => None
      case Some(q) => Some(([f] + q.0, q.1))
  {
    FieldParses(f, "," + tail);
    assert ("," + tail)[1..] == tail;
  }

  /** The fields after the first of a good record make a good record. */
  lemma RestOk(fs: seq<Field>)
    requires RecordOk(fs) && |fs| >= 2
    ensures RecordOk(fs[1..]) && FieldOk(fs[0])
  {
    forall i | 0 <= i < |fs| - 1
      ensures FieldOk(fs[1..][i])
    {
      assert fs[1..][i] == fs[i + 1];
    }
  }

  /** A written line reads back as its fields, leaving the lines after it. */
  lemma {:induction false} RecordParses(fs: seq<Field>, rest: string)
    requires RecordOk(fs)
    ensures ParseRecord(RenderRecord(fs) + rest) == Some((fs, rest))
    decreases |fs|
  {
    if |fs| == 1 {
      assert fs == [fs[0]];
      OneFieldLine(fs[0], rest);
      ParseLastField(fs[0], rest);
    } else {
      var tail := RenderRecord(fs[1..]) + rest;
      RecordText(fs, rest);
      RestOk(fs);
      RecordParses(fs[1..], rest);
      ParseAfterComma(fs[0], tail);
      assert [fs[0]] + fs[1..] == fs;
    }
  }

  /** The reader gives back exactly the records written, in order. */
  lemma {:induction false} DocumentParses(rs: seq<seq<Field>>)
    requires forall r :: r in rs ==> RecordOk(r)
    ensures ParseAll(RenderAll(rs)) == Some(rs)
  {
    if rs != [] {
      assert rs[0] in rs;
      assert forall r :: r in rs[1..] ==> r in rs;
      DocumentParses(rs[1..]);
      RecordParses(rs[0], RenderAll(rs[1..]));
      assert |RenderRecord(rs[0])| >= 1;
      assert [rs[0]] + rs[1..] == rs;
    }
  }
}
