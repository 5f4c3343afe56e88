/**
 * The scanner and the recursive-descent parser of Parser.cpp, over one
 * parser object per parse. Every production is a method that moves the
 * cursor and is proved to compute its reference definition in Grammar.
 */
module Parser {
  import opened Wrappers
  import opened Json
  import opened Grammar

  /** LastQuoteFinder: remembers whether the previous byte started an escape. */
  class QuoteFinder {
    var escapedStarted: bool

    constructor ()
      ensures !escapedStarted
    {
      escapedStarted := false;
    }

    /** check: a backslash toggles the escape state, an unescaped quote is the
        closing quote, any other byte clears the escape state. */
    method Check(c: char) returns (found: bool)
      modifies this
      ensures (found, escapedStarted) == QuoteCheck(old(escapedStarted), c)
    {
      found := false;
      if c == '\\' {
        escapedStarted := !escapedStarted;
      } else if c == '"' && !escapedStarted {
        found := true;
      } else {
        escapedStarted := false;
      }
    }
  }

  /**
   * The cursor state `_pos` / `_eof` over the buffer `[input, input + |input|)`,
   * with the numeric conversion the number production uses.
   */
  class Parser {
    const input: string
    const fromChars: NumberParser
    var pos: nat
    var eof: bool

    /** EOF is flagged exactly when the cursor has reached the end; the cursor
        is at most one past the end (after an unterminated string). */
    ghost predicate Valid()
      reads this
    {
      pos <= |input| + 1 && eof == (pos >= |input|)
    }

    /** The cursor set up by parseFromString over a non-empty buffer. */
    constructor (input: string, fromChars: NumberParser)
      requires |input| > 0
      ensures Valid() && this.input == input && this.fromChars == fromChars
      ensures pos == 0 && !eof
    {
      this.input := input;
      this.fromChars := fromChars;
      pos := 0;
      eof := false;
    }

    /** get: the byte at the cursor; the cursor advances by one. */
    method Get() returns (c: char)
      requires Valid() && !eof
      modifies this
      ensures Valid()
      ensures c == input[old(pos)] && pos == old(pos) + 1
      ensures eof <==> pos == |input|
    {
      c := input[pos];
      pos := pos + 1;
      eof := pos == |input|;
    }

    /** isEOF */
    function IsEOF(): (r: bool)
      reads this
      requires Valid()
      ensures r <==> pos >= |input|
    {
      eof
    }

    /** getFirstNonSpaceChar */
    method FirstNonSpace() returns (c: char)
      requires Valid() && !eof
      modifies this
      ensures Valid()
      ensures Read(c, pos) == SkipBlanks(input, old(pos))
    {
      c := Get();
      while (IsSpaceChar(c) || IsNewLineChar(c)) && !eof
        invariant Valid() && 1 <= pos <= |input| && c == input[pos - 1]
        invariant SkipBlanks(input, old(pos)) == SkipBlanks(input, pos - 1)
        decreases |input| - pos
      {
        c := Get();
      }
    }

    /** getBasicValueBorders(STRING), the cursor just past the opening quote. */
    method StringBorders() returns (span: Option<Span>)
      requires Valid() && pos <= |input|
      modifies this
      ensures Valid()
      ensures (span, pos) == StringSpan(input, old(pos))
    {
      var v1 := pos;
      var isBadChar := false;
      var finder := new QuoteFinder();
      var v2 := v1;
      while v2 < |input|
        invariant v1 <= v2 <= |input|
        invariant ClosingQuote(input, v1, false) == ClosingQuote(input, v2, finder.escapedStarted)
        invariant isBadChar == HasControl(input[v1..v2])
        decreases |input| - v2
        modifies finder
      {
        var c := input[v2];
        assert input[v1..v2 + 1] == input[v1..v2] + [c];
        HasControlAppend(input[v1..v2], c);
        isBadChar := isBadChar || IsControl(c);
        ghost var escaped := finder.escapedStarted;
        var found := finder.Check(c);
        if found {
          assert input[v1..v2 + 1][v2 - v1] == '"';
          break;
        }
        v2 := v2 + 1;
      }
      if v2 + 1 == |input| || v2 == |input| {
        eof := true;
      }
      pos := v2 + 1;
      span := if isBadChar then None else Some(Span(v1, v2));
    }

    /** getBasicValueBorders(NUMBER), the trigger byte already read. */
    method NumberBorders() returns (span: Span)
      requires Valid() && 1 <= pos <= |input|
      modifies this
      ensures Valid()
      ensures (span, pos) == NumberSpan(input, old(pos))
    {
      var v1 := pos;
      var v2 := v1;
      while v2 < |input| && IsNumberChar(input[v2])
        invariant v1 <= v2 <= |input|
        invariant NumberEnd(input, v1) == NumberEnd(input, v2)
        decreases |input| - v2
      {
        v2 := v2 + 1;
      }
      if v2 == |input| {
        eof := true;
      }
      pos := v2;
      v1 := v1 - 1;
      span := Span(v1, v2);
    }

    /** isWord: GET_NEXT gives up at EOF. For `null` the target stays the
        Null value that every caller passes in. */
    method IsWord(c0: char) returns (ok: bool, v: Data)
      requires Valid()
      modifies this
      ensures Valid()
      ensures var r := WordValue(input, c0, old(pos)); ok == r.Some? && (ok ==> Parsed(v, pos) == r.value)
      ensures !(c0 == 'n' || c0 == 't' || c0 == 'f') ==> pos == old(pos)
    {
      v := Empty;
      var w: string := [c0];
      var c: char;
      if c0 == 'n' || c0 == 't' {
        for i := 0 to 3
          invariant Valid() && pos == old(pos) + i && (i > 0 ==> pos <= |input|)
          invariant w == [c0] + if i == 0 then [] else input[old(pos)..pos]
        {
          if eof {
            return false, v;
          }
          c := Get();
          w := w + [c];
        }
        if w == "null" {
          return true, v;
        }
        if w == "true" {
          return true, Boolean(true);
        }
        return false, v;
      } else if c0 == 'f' {
        for i := 0 to 4
          invariant Valid() && pos == old(pos) + i && (i > 0 ==> pos <= |input|)
          invariant w == [c0] + if i == 0 then [] else input[old(pos)..pos]
        {
          if eof {
            return false, v;
          }
          c := Get();
          w := w + [c];
        }
        if w == "false" {
          return true, Boolean(false);
        }
        return false, v;
      }
      return false, v;
    }

    /** isNumber: the span from the trigger, converted by from_chars. */
    method IsNumber(c: char) returns (ok: bool, v: Data)
      requires Valid()
      requires IsDigit(c) || c == '-' ==> 1 <= pos <= |input|
      modifies this
      ensures Valid()
      ensures var r := NumberValue(input, fromChars, c, old(pos)); ok == r.Some? && (ok ==> Parsed(v, pos) == r.value)
    {
      v := Empty;
      if IsDigit(c) || c == '-' {
        var range := NumberBorders();
        var number := fromChars(input[range.first..range.last]);
        ok := number.Some?;
        if ok {
          v := Number(number.value);
        }
        return;
      }
      ok := false;
    }

    /** isString: the raw content between the quotes, copied out. */
    method IsString(c: char) returns (ok: bool, v: Data)
      requires Valid() && pos <= |input|
      modifies this
      ensures Valid()
      ensures var r := StringValue(input, c, old(pos)); ok == r.Some? && (ok ==> Parsed(v, pos) == r.value)
      ensures c != '"' ==> pos == old(pos)
    {
      v := Empty;
      if c != '"' {
        return false, v;
      }
      var range := StringBorders();
      if range.Some? {
        v := String(input[range.value.first..range.value.last]);
        return true, v;
      }
      return false, v;
    }

    /** isString(c, o) || isWord(c, o) || isNumber(c, o) */
    method ReadScalar(c: char) returns (ok: bool, v: Data)
      requires Valid() && 1 <= pos <= |input|
      modifies this
      ensures Valid()
      ensures var r := ScalarValue(input, fromChars, c, old(pos)); ok == r.Some? && (ok ==> Parsed(v, pos) == r.value)
    {
      ok, v := IsString(c);
      if ok {
        return;
      }
      ok, v := IsWord(c);
      if ok {
        return;
      }
      ok, v := IsNumber(c);
    }

    /** The dispatch of parse, readArray and readKeyValue on a value's first byte. */
    method ReadValue(c: char) returns (ok: bool, v: Data)
      requires Valid() && 1 <= pos <= |input|
      modifies this
      ensures Valid()
      ensures var r := ParseValue(input, fromChars, c, old(pos)); ok == r.Some? && (ok ==> Parsed(v, pos) == r.value)
      decreases |input| + 1 - pos, 1
    {
      if c == '{' {
        ok, v := ReadMap();
      } else if c == '[' {
        ok, v := ReadArray();
      } else {
        ok, v := ReadScalar(c);
      }
    }

    /** readMap, the cursor just past the `{`. */
    method ReadMap() returns (ok: bool, v: Data)
      requires Valid() && pos <= |input|
      modifies this
      ensures Valid()
      ensures var r := ParseObject(input, fromChars, old(pos)); ok == r.Some? && (ok ==> Parsed(v, pos) == r.value)
      decreases |input| + 1 - pos, 0
    {
      var fields: map<string, Data> := map[];
      v := Object(fields);
      ghost var spec := ParseObject(input, fromChars, pos);
      if eof {
        return false, v;
      }
      var c := FirstNonSpace();
      if c == '}' {
        return true, v;
      }
      while true
        invariant Valid() && old(pos) < pos <= |input|
        invariant spec == ObjectMembers(input, fromChars, c, pos, fields)
        decreases |input| + 1 - pos
      {
        var res;
        res, fields := ReadKeyValue(c, fields);
        v := Object(fields);
        if !res || eof {
          return false, v;
        }
        c := FirstNonSpace();
        if c == '}' {
          return true, v;
        } else if c != ',' {
          return false, v;
        }
        if eof {
          return false, v;
        }
        c := FirstNonSpace();
      }
    }

    /** readArray, the cursor just past the `[`. */
    method ReadArray() returns (ok: bool, v: Data)
      requires Valid() && pos <= |input|
      modifies this
      ensures Valid()
      ensures var r := ParseArray(input, fromChars, old(pos)); ok == r.Some? && (ok ==> Parsed(v, pos) == r.value)
      decreases |input| + 1 - pos, 0
    {
      var items: seq<Data> := [];
      v := Array(items);
      ghost var spec := ParseArray(input, fromChars, pos);
      if eof {
        return false, v;
      }
      var c := FirstNonSpace();
      if c == ']' {
        return true, v;
      }
      while true
        invariant Valid() && old(pos) < pos <= |input|
        invariant spec == ArrayElements(input, fromChars, c, pos, items)
        decreases |input| + 1 - pos
      {
        var res, temp := ReadValue(c);
        items := items + [temp];
        v := Array(items);
        if !res || eof {
          return false, v;
        }
        c := FirstNonSpace();
        if c == ']' {
          return true, v;
        } else if c != ',' {
          return false, v;
        }
        if eof {
          return false, v;
        }
        c := FirstNonSpace();
      }
    }

    /** readKeyValue: the member is added with try_emplace even when its value
        fails, which only matters on a path that fails as a whole. */
    method ReadKeyValue(c0: char, fields: map<string, Data>) returns (ok: bool, fields': map<string, Data>)
      requires Valid() && 1 <= pos <= |input|
      modifies this
      ensures Valid()
      ensures var r := KeyValue(input, fromChars, c0, old(pos), fields); ok == r.Some? && (ok ==> Members(fields', pos) == r.value)
      decreases |input| + 1 - pos, 0
    {
      fields' := fields;
      var isKey, key := IsString(c0);
      if !isKey || eof {
        return false, fields';
      }
      var c := FirstNonSpace();
      if c != ':' || eof {
        return false, fields';
      }
      c := FirstNonSpace();
      var res, o := ReadValue(c);
      if key.text !in fields' {
        fields' := fields'[key.text := o];
      }
      ok := res;
    }

    /** parse(): the value that starts at the first significant byte. */
    method Parse() returns (v: Data, code: bool)
      requires Valid() && !eof
      modifies this
      ensures Valid()
      ensures var first := SkipBlanks(input, old(pos));
        var r := ParseValue(input, fromChars, first.c, first.next);
        code == r.Some? && (code ==> v == r.value.value)
    {
      var c := FirstNonSpace();
      code, v := ReadValue(c);
    }
  }

  /** parseFromString */
  method ParseFromString(json: string, fromChars: NumberParser) returns (r: Option<Data>)
    ensures r == ParseDocument(json, fromChars)
  {
    if |json| > 0 {
      var p := new Parser(json, fromChars);
      var v, code := p.Parse();
      if code {
        return Some(v);
      }
    }
    return None;
  }
}
