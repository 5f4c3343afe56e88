/**
 * Behaviour of parseFromString on its edge cases: which documents it
 * accepts, which it rejects, and what it builds for a repeated key.
 */
module Documents {
  import opened Wrappers
  import opened Json
  import opened Grammar
  import opened RoundTrip

  /** readKeyValue adds its key to the members read so far, with the value
      just read after the colon only when the key is new: an existing entry
      is never overwritten. */
  lemma KeyValueKeepsEntries(s: string, fromChars: NumberParser, c: char, pos: nat, acc: map<string, Data>)
    requires 1 <= pos <= |s|
    ensures var r := KeyValue(s, fromChars, c, pos, acc);
      r.Some? ==>
        && StringToken(s, c, pos).Some?
        && r.value.fields.Keys == acc.Keys + {StringToken(s, c, pos).value.0}
        && (forall k | k in acc :: r.value.fields[k] == acc[k])
        && var (key, p) := StringToken(s, c, pos).value;
           && p < |s| && SkipBlanks(s, p).next < |s|
           && var v := SkipBlanks(s, SkipBlanks(s, p).next);
              key !in acc ==> ParseValue(s, fromChars, v.c, v.next) == Some(Parsed(r.value.fields[key], r.value.next))
  {
  }

  /** Whatever follows in the object, the members already read keep their
      values: with a repeated key the first occurrence wins. */
  lemma {:induction false} ObjectMembersKeepFirst(s: string, fromChars: NumberParser, c: char, pos: nat, acc: map<string, Data>)
    requires 1 <= pos <= |s|
    ensures var r := ObjectMembers(s, fromChars, c, pos, acc);
      r.Some? ==>
        && r.value.value.Object? && acc.Keys <= r.value.value.fields.Keys
        && forall k | k in acc :: r.value.value.fields[k] == acc[k]
    decreases |s| + 1 - pos, 1
  {
    KeyValueKeepsEntries(s, fromChars, c, pos, acc);
    match KeyValue(s, fromChars, c, pos, acc)
    case None =>
    case Some(Members(fields, p)) => MembersAfterKeepFirst(s, fromChars, p, fields);
  }

  lemma {:induction false} MembersAfterKeepFirst(s: string, fromChars: NumberParser, pos: nat, fields: map<string, Data>)
    requires 1 <= pos <= |s| + 1
    ensures var r := MembersAfter(s, fromChars, pos, fields);
      r.Some? ==>
        && r.value.value.Object? && fields.Keys <= r.value.value.fields.Keys
        && forall k | k in fields :: r.value.value.fields[k] == fields[k]
    decreases |s| + 1 - pos, 2
  {
    if pos < |s| {
      var sep := SkipBlanks(s, pos);
      if sep.c == ',' && sep.next < |s| {
        var r := SkipBlanks(s, sep.next);
        ObjectMembersKeepFirst(s, fromChars, r.c, r.next, fields);
      }
    }
  }

  /** A key token is the bytes up to the next quote. */
  lemma KeyAt(s: string, pos: nat, close: nat)
    requires 1 <= pos <= close < |s| && s[close] == '"'
    requires forall k | pos <= k < close :: s[k] != '"' && s[k] != '\\' && !IsControl(s[k])
    ensures StringToken(s, '"', pos) == Some((s[pos..close], close + 1))
  {
    ClosingQuoteStops(s, pos, close);
    assert !HasControl(s[pos..close]) by {
      forall k | 0 <= k < close - pos
        ensures !IsControl(s[pos..close][k])
      {
        assert s[pos..close][k] == s[pos + k];
      }
    }
  }

  lemma {:induction false} ClosingQuoteStops(s: string, i: nat, close: nat)
    requires i <= close < |s| && s[close] == '"'
    requires forall k | i <= k < close :: s[k] != '"' && s[k] != '\\'
    ensures ClosingQuote(s, i, false) == close
    decreases close - i
  {
    if i < close {
      ClosingQuoteStops(s, i + 1, close);
    }
  }

  /** A literal word read with its first byte at pos - 1. */
  lemma WordAt(s: string, fromChars: NumberParser, c: char, pos: nat, w: string, d: Data)
    requires 1 <= pos <= |s| && c == s[pos - 1]
    requires w in {"null", "true", "false"} && pos - 1 + |w| <= |s| && s[pos - 1..pos - 1 + |w|] == w
    requires d == (if w == "null" then Empty else Boolean(w == "true"))
    ensures ParseValue(s, fromChars, c, pos) == Some(Parsed(d, pos - 1 + |w|))
  {
    assert [c] + s[pos..pos - 1 + |w|] == w by {
      assert s[pos - 1..pos - 1 + |w|] == [s[pos - 1]] + s[pos..pos - 1 + |w|];
    }
    assert "true" != "null" by { assert "true"[0] != "null"[0]; }
  }

  /** `{}` and `[]` with blanks inside are the empty object and array. */
  lemma EmptyContainersParse(fromChars: NumberParser)
    ensures ParseDocument("{ }", fromChars) == Some(Object(map[]))
    ensures ParseDocument("[\r\n]", fromChars) == Some(Array([]))
  {
    assert SkipBlanks("{ }", 1) == Read('}', 3);
    assert SkipBlanks("[\r\n]", 1) == Read(']', 4);
  }

  /** After a comma the next element must follow: a trailing comma is rejected. */
  lemma TrailingCommaInArrayFails(fromChars: NumberParser)
    ensures ParseDocument("[true,]", fromChars) == None
  {
    var s := "[true,]";
    assert s[1..5] == "true";
    WordAt(s, fromChars, 't', 2, "true", Boolean(true));
    assert SkipBlanks(s, 5) == Read(',', 6);
    assert SkipBlanks(s, 6) == Read(']', 7);
    assert ArrayElements(s, fromChars, ']', 7, [Boolean(true)]) == None;
    assert ArrayElements(s, fromChars, 't', 2, []) == None;
    assert SkipBlanks(s, 1) == Read('t', 2);
  }

  /** After a comma the next member must begin with a quote: a trailing
      comma is rejected. */
  lemma TrailingCommaInObjectFails(fromChars: NumberParser)
    ensures ParseDocument("{\"a\":null,}", fromChars) == None
  {
    var s := "{\"a\":null,}";
    KeyAt(s, 2, 3);
    assert s[2..3] == "a";
    SkipNonBlank(s, 4);
    SkipNonBlank(s, 5);
    assert s[5..9] == "null";
    WordAt(s, fromChars, 'n', 6, "null", Empty);
    assert KeyValue(s, fromChars, '"', 2, map[]) == Some(Members(map["a" := Empty], 9));
    SkipSeparator(s, 9);
    SkipNonBlank(s, 1);
  }

  /** Between two elements only a comma is accepted, and the end of the
      input before the closing bracket is a failure. */
  lemma MissingSeparatorFails(fromChars: NumberParser)
    ensures ParseDocument("[true false]", fromChars) == None
    ensures ParseDocument("[true", fromChars) == None
  {
    var a := "[true false]";
    assert a[1..5] == "true";
    WordAt(a, fromChars, 't', 2, "true", Boolean(true));
    assert SkipBlanks(a, 5) == Read('f', 7);
    assert SkipBlanks(a, 1) == Read('t', 2);
    var b := "[true";
    assert b[1..5] == "true";
    WordAt(b, fromChars, 't', 2, "true", Boolean(true));
    assert SkipBlanks(b, 1) == Read('t', 2);
  }

  /** Nothing after the first value is looked at. */
  lemma TrailingBytesIgnored(fromChars: NumberParser)
    ensures ParseDocument("true}", fromChars) == Some(Boolean(true))
    ensures ParseDocument("[] x", fromChars) == Some(Array([]))
  {
    var s := "true}";
    assert s[0..4] == "true";
    WordAt(s, fromChars, 't', 1, "true", Boolean(true));
    assert SkipBlanks(s, 0) == Read('t', 1);
    assert SkipBlanks("[] x", 1) == Read(']', 2);
  }

  /** A top-level string without its closing quote runs to the end of the
      input and is accepted. */
  lemma UnterminatedStringAccepted(fromChars: NumberParser)
    ensures ParseDocument("\"ab", fromChars) == Some(String("ab"))
  {
    var s := "\"ab";
    assert ClosingQuote(s, 1, false) == 3;
    assert s[1..3] == "ab";
    assert !HasControl(s[1..3]);
  }

  /** A literal cut short by the end of the input is rejected. */
  lemma TruncatedWordFails(fromChars: NumberParser)
    ensures ParseDocument("nul", fromChars) == None
    ensures ParseDocument("fals", fromChars) == None
  {
  }

  /** A raw control byte inside a string is rejected; an escaped quote does
      not end the string and is kept as written. */
  lemma StringContents(fromChars: NumberParser)
    ensures ParseDocument("\"a\tb\"", fromChars) == None
    ensures ParseDocument("\"a\\\"b\"", fromChars) == Some(String("a\\\"b"))
  {
    var bad := "\"a\tb\"";
    assert ClosingQuote(bad, 1, false) == 4;
    assert bad[1..4][1] == '\t';
    var ok := "\"a\\\"b\"";
    assert ClosingQuote(ok, 1, false) == 5;
    assert ok[1..5] == "a\\\"b";
    assert !HasControl(ok[1..5]);
  }

  /** An empty input has no value. */
  lemma EmptyInputFails(fromChars: NumberParser)
    ensures ParseDocument("", fromChars) == None
  {
  }
}
