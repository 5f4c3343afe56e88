/**
 * Reference definitions of the scanner and the recursive-descent productions
 * of Parser.cpp, as functions of the input text and a cursor position.
 *
 * A cursor `pos` is the index of the next byte to read; end of input is
 * `pos >= |s|` (the scanner's EOF flag). After a string whose closing quote
 * is missing the cursor stands at |s| + 1. A production either fails (None;
 * the source then discards whatever it built) or yields the value and the
 * cursor after it.
 */
module Grammar {
  import opened Wrappers
  import opened Json

  /** std::from_chars into a double: Some(d) when the numeric parse consumes
      the whole span, None otherwise. */
  type NumberParser = string -> Option<Double>

  /** A byte returned by get / getFirstNonSpaceChar and the cursor after it. */
  datatype Read = Read(c: char, next: nat)

  /** A [first, last) span of the input. */
  datatype Span = Span(first: nat, last: nat)

  /** A value built by a production and the cursor after it. */
  datatype Parsed = Parsed(value: Data, next: nat)

  /** An object's members after one key-value pair, and the cursor after it. */
  datatype Members = Members(fields: map<string, Data>, next: nat)

  predicate IsSpaceChar(c: char) { c == '\t' || c == ' ' }

  predicate IsNewLineChar(c: char) { c == '\n' || c == '\r' }

  predicate IsBlank(c: char) { IsSpaceChar(c) || IsNewLineChar(c) }

  /** The rejected raw bytes 0x00-0x1F of a string. */
  predicate IsControl(c: char) { c as int <= 0x1F }

  /** isdigit in the C locale. */
  predicate IsDigit(c: char) { '0' <= c <= '9' }

  /** The bytes a number span runs over. */
  predicate IsNumberChar(c: char)
  {
    IsDigit(c) || c == '.' || c == 'e' || c == 'E' || c == '+' || c == '-'
  }

  /** getFirstNonSpaceChar: reads one byte, then keeps reading while the byte
      read is blank and input remains. */
  function SkipBlanks(s: string, pos: nat): (r: Read)
    requires pos < |s|
    ensures pos < r.next <= |s| && r.c == s[r.next - 1]
    ensures !IsBlank(r.c) || r.next == |s|
    decreases |s| - pos
  {
    if IsBlank(s[pos]) && pos + 1 < |s| then SkipBlanks(s, pos + 1) else Read(s[pos], pos + 1)
  }

  /** Every byte getFirstNonSpaceChar skips over is blank. */
  lemma {:induction false} SkipBlanksSkipsBlanks(s: string, pos: nat)
    requires pos < |s|
    ensures forall k | pos <= k < SkipBlanks(s, pos).next - 1 :: IsBlank(s[k])
    decreases |s| - pos
  {
    if IsBlank(s[pos]) && pos + 1 < |s| {
      SkipBlanksSkipsBlanks(s, pos + 1);
    }
  }

  /** LastQuoteFinder::check: (found, escaped afterwards). */
  function QuoteCheck(escaped: bool, c: char): (r: (bool, bool))
    ensures r.0 <==> c == '"' && !escaped
    ensures r.1 <==> c == '\\' && !escaped
  {
    if c == '\\' then (false, !escaped)
    else if c == '"' && !escaped then (true, escaped)
    else (false, false)
  }

  /** std::find_if with the finder: the index of the closing quote at or after
      i, or |s| when there is none. */
  function ClosingQuote(s: string, i: nat, escaped: bool): (j: nat)
    requires i <= |s|
    ensures i <= j <= |s|
    ensures j < |s| ==> s[j] == '"'
    decreases |s| - i
  {
    if i == |s| then |s|
    else
      var (found, e) := QuoteCheck(escaped, s[i]);
      if found then i else ClosingQuote(s, i + 1, e)
  }

  /** The length of the run of backslashes that ends `t`. */
  function TrailingBackslashes(t: string): (r: nat)
    ensures r <= |t|
  {
    if |t| > 0 && t[|t| - 1] == '\\' then 1 + TrailingBackslashes(t[..|t| - 1]) else 0
  }

  /** A quote at index j ends a string that starts at i iff the run of
      backslashes right before it (inside the string) has even length. */
  predicate EndsString(s: string, i: nat, j: nat)
    requires i <= j < |s|
  {
    s[j] == '"' && TrailingBackslashes(s[i..j]) % 2 == 0
  }

  lemma TrailingAppend(t: string, c: char)
    ensures TrailingBackslashes(t + [c]) == if c == '\\' then 1 + TrailingBackslashes(t) else 0
  {
    assert (t + [c])[..|t + [c]| - 1] == t;
  }

  /** The escape state after scanning s[i..k] from "not escaped" is the parity
      of the trailing backslash run, and no earlier quote ended the string. */
  lemma {:induction false} ClosingQuoteFrom(s: string, i: nat, k: nat, escaped: bool)
    requires i <= k <= |s|
    requires escaped == (TrailingBackslashes(s[i..k]) % 2 == 1)
    requires forall m | i <= m < k :: !EndsString(s, i, m)
    ensures var j := ClosingQuote(s, k, escaped);
      k <= j && (j < |s| ==> EndsString(s, i, j)) && forall m | i <= m < j :: !EndsString(s, i, m)
    decreases |s| - k
  {
    if k < |s| {
      QuoteStep(s, i, k, escaped);
      var (found, e) := QuoteCheck(escaped, s[k]);
      if !found {
        ClosingQuoteFrom(s, i, k + 1, e);
      }
    }
  }

  /** One byte of the scan: the finder reports a quote exactly when it ends
      the string, and its escape state follows the trailing backslash run. */
  lemma QuoteStep(s: string, i: nat, k: nat, escaped: bool)
    requires i <= k < |s|
    requires escaped == (TrailingBackslashes(s[i..k]) % 2 == 1)
    ensures QuoteCheck(escaped, s[k]).0 == EndsString(s, i, k)
    ensures QuoteCheck(escaped, s[k]).1 == (TrailingBackslashes(s[i..k + 1]) % 2 == 1)
  {
    assert s[i..k + 1] == s[i..k] + [s[k]];
    TrailingAppend(s[i..k], s[k]);
  }

  /** The escape-parity rule: the string scan stops at the first quote that is
      preceded by an even run of backslashes, or at the end of the input. */
  lemma ClosingQuoteParity(s: string, i: nat)
    requires i <= |s|
    ensures var j := ClosingQuote(s, i, false);
      i <= j <= |s| && (j < |s| ==> EndsString(s, i, j)) && forall m | i <= m < j :: !EndsString(s, i, m)
  {
    assert s[i..i] == [];
    ClosingQuoteFrom(s, i, i, false);
  }

  predicate HasControl(t: string)
  {
    exists k | 0 <= k < |t| :: IsControl(t[k])
  }

  lemma HasControlAppend(t: string, c: char)
    ensures HasControl(t + [c]) <==> HasControl(t) || IsControl(c)
  {
    if HasControl(t) {
      var k :| 0 <= k < |t| && IsControl(t[k]);
      assert (t + [c])[k] == t[k];
    }
    if IsControl(c) {
      assert (t + [c])[|t|] == c;
    }
  }

  /** getBasicValueBorders(STRING) from `from`, just past the opening quote:
      the content span (None when it holds a control byte) and the cursor one
      past the closing quote. */
  function StringSpan(s: string, from: nat): (r: (Option<Span>, nat))
    requires from <= |s|
  {
    var close := ClosingQuote(s, from, false);
    (if HasControl(s[from..close]) then None else Some(Span(from, close)), close + 1)
  }

  /** The string span ends at the first quote preceded by an even run of
      backslashes (or at the end of the input), the cursor stands one past
      it, and a control byte anywhere in the content rejects the string. */
  lemma StringSpanStops(s: string, from: nat)
    requires from <= |s|
    ensures var r := StringSpan(s, from);
      && from < r.1 <= |s| + 1
      && (r.1 <= |s| ==> EndsString(s, from, r.1 - 1))
      && (forall m | from <= m < r.1 - 1 :: !EndsString(s, from, m))
      && (r.0.Some? <==> !HasControl(s[from..r.1 - 1]))
      && (r.0.Some? ==> r.0.value == Span(from, r.1 - 1))
  {
    ClosingQuoteParity(s, from);
  }

  /** The first index at or after i that is not a number byte, or |s|. */
  function NumberEnd(s: string, i: nat): (j: nat)
    requires i <= |s|
    ensures i <= j <= |s|
    ensures j < |s| ==> !IsNumberChar(s[j])
    decreases |s| - i
  {
    if i < |s| && IsNumberChar(s[i]) then NumberEnd(s, i + 1) else i
  }

  /** The number span consists of number bytes only. */
  lemma {:induction false} NumberEndRun(s: string, i: nat)
    requires i <= |s|
    ensures forall k | i <= k < NumberEnd(s, i) :: IsNumberChar(s[k])
    decreases |s| - i
  {
    if i < |s| && IsNumberChar(s[i]) {
      NumberEndRun(s, i + 1);
    }
  }

  /** getBasicValueBorders(NUMBER) with the trigger byte at pos - 1 already
      read: the span includes the trigger; the cursor stops at the first byte
      that is not a number byte. */
  function NumberSpan(s: string, pos: nat): (r: (Span, nat))
    requires 1 <= pos <= |s|
  {
    var close := NumberEnd(s, pos);
    (Span(pos - 1, close), close)
  }

  /** The number span starts at the trigger byte and is the longest run of
      number bytes from there; the cursor stops at its end. */
  lemma NumberSpanRun(s: string, pos: nat)
    requires 1 <= pos <= |s|
    ensures var r := NumberSpan(s, pos);
      && r.0.first == pos - 1 && r.0.last == r.1 && pos <= r.1 <= |s|
      && (forall k | pos <= k < r.1 :: IsNumberChar(s[k]))
      && (r.1 < |s| ==> !IsNumberChar(s[r.1]))
  {
    NumberEndRun(s, pos);
  }

  /** isString for the key of a member: the raw content and the cursor after it. */
  function StringToken(s: string, c: char, pos: nat): (r: Option<(string, nat)>)
    requires pos <= |s|
    ensures r.Some? ==> pos < r.value.1 <= |s| + 1
  {
    if c != '"' then None
    else
      match StringSpan(s, pos)
      case (None, _) => None
      case (Some(span), next) => Some((s[span.first..span.last], next))
  }

  /** isString */
  function StringValue(s: string, c: char, pos: nat): (r: Option<Parsed>)
    requires pos <= |s|
    ensures r.Some? ==> pos < r.value.next <= |s| + 1
  {
    match StringToken(s, c, pos)
    case None => None
    case Some((text, next)) => Some(Parsed(String(text), next))
  }

  /** The literal word that spells a null or boolean value. */
  function WordText(d: Data): string
  {
    if d.Boolean? then (if d.flag then "true" else "false") else "null"
  }

  /** isWord: after `n` or `t` exactly three more bytes are read, after `f`
      exactly four; only null, true and false succeed. */
  function WordValue(s: string, c: char, pos: nat): (r: Option<Parsed>)
    requires pos <= |s| + 1
  {
    if c == 'n' || c == 't' then
      if pos + 3 > |s| then None
      else if [c] + s[pos..pos + 3] == "null" then Some(Parsed(Empty, pos + 3))
      else if [c] + s[pos..pos + 3] == "true" then Some(Parsed(Boolean(true), pos + 3))
      else None
    else if c == 'f' then
      if pos + 4 > |s| then None
      else if [c] + s[pos..pos + 4] == "false" then Some(Parsed(Boolean(false), pos + 4))
      else None
    else None
  }

  /** isWord succeeds exactly on the bytes of null, true or false, and then
      yields the value the word spells and the cursor just past it. */
  lemma WordValueSpelled(s: string, c: char, pos: nat)
    requires pos <= |s| + 1
    ensures var r := WordValue(s, c, pos);
      && (r.Some? <==>
            || (pos + 3 <= |s| && [c] + s[pos..pos + 3] in {"null", "true"})
            || (pos + 4 <= |s| && [c] + s[pos..pos + 4] == "false"))
      && (r.Some? ==>
            && (r.value.value.Empty? || r.value.value.Boolean?)
            && r.value.next == pos - 1 + |WordText(r.value.value)| <= |s|
            && [c] + s[pos..r.value.next] == WordText(r.value.value))
  {
    assert pos + 3 <= |s| ==> ([c] + s[pos..pos + 3])[0] == c;
    assert pos + 4 <= |s| ==> ([c] + s[pos..pos + 4])[0] == c;
  }

  /** isNumber */
  function NumberValue(s: string, fromChars: NumberParser, c: char, pos: nat): (r: Option<Parsed>)
    requires IsDigit(c) || c == '-' ==> 1 <= pos <= |s|
  {
    if IsDigit(c) || c == '-' then
      var (span, next) := NumberSpan(s, pos);
      match fromChars(s[span.first..span.last])
      case None => None
      case Some(d) => Some(Parsed(Number(d), next))
    else None
  }

  /** isNumber succeeds exactly when the value starts with a digit or `-` and
      from_chars consumes the whole run of number bytes from there; the
      number is what from_chars read and the cursor stops after the run. */
  lemma NumberValueSpan(s: string, fromChars: NumberParser, c: char, pos: nat)
    requires IsDigit(c) || c == '-' ==> 1 <= pos <= |s|
    ensures var r := NumberValue(s, fromChars, c, pos);
      && (r.Some? <==> (IsDigit(c) || c == '-') && fromChars(s[pos - 1..NumberEnd(s, pos)]).Some?)
      && (r.Some? ==>
            && pos <= r.value.next <= |s|
            && r.value.value.Number? && fromChars(s[pos - 1..r.value.next]) == Some(r.value.value.number)
            && (forall k | pos <= k < r.value.next :: IsNumberChar(s[k]))
            && (r.value.next < |s| ==> !IsNumberChar(s[r.value.next])))
  {
    if IsDigit(c) || c == '-' {
      NumberSpanRun(s, pos);
    }
  }

  /** isString(c, o) || isWord(c, o) || isNumber(c, o) */
  function ScalarValue(s: string, fromChars: NumberParser, c: char, pos: nat): (r: Option<Parsed>)
    requires 1 <= pos <= |s|
    ensures r.Some? ==> pos <= r.value.next <= |s| + 1
  {
    var str := StringValue(s, c, pos);
    if str.Some? then str
    else
      var word := WordValue(s, c, pos);
      if word.Some? then word
      else NumberValue(s, fromChars, c, pos)
  }

  /** The dispatch on a value's first byte c (read just before pos), shared by
      parse, readArray and readKeyValue. */
  function ParseValue(s: string, fromChars: NumberParser, c: char, pos: nat): (r: Option<Parsed>)
    requires 1 <= pos <= |s|
    ensures r.Some? ==> pos <= r.value.next <= |s| + 1
    decreases |s| + 1 - pos, 1
  {
    if c == '{' then ParseObject(s, fromChars, pos)
    else if c == '[' then ParseArray(s, fromChars, pos)
    else ScalarValue(s, fromChars, c, pos)
  }

  /** readMap, entered just past the `{`. */
  function ParseObject(s: string, fromChars: NumberParser, pos: nat): (r: Option<Parsed>)
    requires pos <= |s|
    ensures r.Some? ==> pos < r.value.next <= |s| + 1
    decreases |s| + 1 - pos, 0
  {
    if pos >= |s| then None
    else
      var r := SkipBlanks(s, pos);
      if r.c == '}' then Some(Parsed(Object(map[]), r.next))
      else ObjectMembers(s, fromChars, r.c, r.next, map[])
  }

  /** The while (true) loop of readMap: one key-value pair starting with c,
      then `}` ends the object and `,` continues it. */
  function ObjectMembers(s: string, fromChars: NumberParser, c: char, pos: nat, acc: map<string, Data>): (r: Option<Parsed>)
    requires 1 <= pos <= |s|
    ensures r.Some? ==> pos < r.value.next <= |s| + 1
    decreases |s| + 1 - pos, 1
  {
    match KeyValue(s, fromChars, c, pos, acc)
    case None => None
    case Some(Members(fields, p)) => MembersAfter(s, fromChars, p, fields)
  }

  /** What readMap does after one key-value pair, the cursor at pos. */
  function MembersAfter(s: string, fromChars: NumberParser, pos: nat, fields: map<string, Data>): (r: Option<Parsed>)
    requires 1 <= pos <= |s| + 1
    ensures r.Some? ==> pos < r.value.next <= |s| + 1
    decreases |s| + 1 - pos, 2
  {
    if pos >= |s| then None
    else
      var sep := SkipBlanks(s, pos);
      if sep.c == '}' then Some(Parsed(Object(fields), sep.next))
      else if sep.c != ',' then None
      else if sep.next >= |s| then None
      else
        var r := SkipBlanks(s, sep.next);
        ObjectMembers(s, fromChars, r.c, r.next, fields)
  }

  /** readKeyValue: a string key, `:`, a value; try_emplace keeps an existing
      key's value. */
  function KeyValue(s: string, fromChars: NumberParser, c: char, pos: nat, acc: map<string, Data>): (r: Option<Members>)
    requires 1 <= pos <= |s|
    ensures r.Some? ==> pos < r.value.next <= |s| + 1
    decreases |s| + 1 - pos, 0
  {
    match StringToken(s, c, pos)
    case None => None
    case Some((key, p)) =>
      if p >= |s| then None
      else
        var colon := SkipBlanks(s, p);
        if colon.c != ':' then None
        else if colon.next >= |s| then None
        else
          var r := SkipBlanks(s, colon.next);
          match ParseValue(s, fromChars, r.c, r.next)
          case None => None
          case Some(Parsed(v, next)) => Some(Members(if key in acc then acc else acc[key := v], next))
  }

  /** readArray, entered just past the `[`. */
  function ParseArray(s: string, fromChars: NumberParser, pos: nat): (r: Option<Parsed>)
    requires pos <= |s|
    ensures r.Some? ==> pos < r.value.next <= |s| + 1
    decreases |s| + 1 - pos, 0
  {
    if pos >= |s| then None
    else
      var r := SkipBlanks(s, pos);
      if r.c == ']' then Some(Parsed(Array([]), r.next))
      else ArrayElements(s, fromChars, r.c, r.next, [])
  }

  /** The while (true) loop of readArray: one element starting with c, then `]`
      ends the array and `,` continues it. */
  function ArrayElements(s: string, fromChars: NumberParser, c: char, pos: nat, acc: seq<Data>): (r: Option<Parsed>)
    requires 1 <= pos <= |s|
    ensures r.Some? ==> pos < r.value.next <= |s| + 1
    decreases |s| + 1 - pos, 2
  {
    match ParseValue(s, fromChars, c, pos)
    case None => None
    case Some(Parsed(v, p)) =>
      if p >= |s| then None
      else
        var sep := SkipBlanks(s, p);
        if sep.c == ']' then Some(Parsed(Array(acc + [v]), sep.next))
        else if sep.c != ',' then None
        else if sep.next >= |s| then None
        else
          var r := SkipBlanks(s, sep.next);
          ArrayElements(s, fromChars, r.c, r.next, acc + [v])
  }

  /** parse(): dispatch on the first significant byte of a non-empty input. */
  function Document(s: string, fromChars: NumberParser): (r: Option<Parsed>)
    requires |s| > 0
  {
    var r := SkipBlanks(s, 0);
    ParseValue(s, fromChars, r.c, r.next)
  }

  /** parseFromString: no value for an empty input or when any production fails. */
  function ParseDocument(s: string, fromChars: NumberParser): (r: Option<Data>)
  {
    if |s| == 0 then None
    else
      match Document(s, fromChars)
      case None => None
      case Some(p) => Some(p.value)
  }

  /** An input made of blanks only (including the empty input) has no value. */
  lemma BlankDocumentFails(s: string, fromChars: NumberParser)
    requires forall k | 0 <= k < |s| :: IsBlank(s[k])
    ensures ParseDocument(s, fromChars) == None
    ensures |s| > 0 ==> Document(s, fromChars) == None
  {
  }
}
