/**
 * The round trip: for a value whose strings and numbers
 * can be read back, parsing its serialization yields the value again.
 */
module RoundTrip {
  import opened Wrappers
  import opened Json
  import opened Grammar
  import opened Serializer

  /** String content that the scanner ends exactly at the quote written after
      it: no control byte, and no quote before an even run of backslashes,
      not even the closing one. The serializer writes strings without escaping,
      so exactly these come back unchanged. */
  predicate RawText(t: string)
  {
    && !HasControl(t)
    && TrailingBackslashes(t) % 2 == 0
    && forall m | 0 <= m < |t| :: !(t[m] == '"' && TrailingBackslashes(t[..m]) % 2 == 0)
  }

  /** A text the number scanner takes in whole. */
  predicate NumberText(t: string)
  {
    |t| > 0 && (IsDigit(t[0]) || t[0] == '-') && forall k | 0 <= k < |t| :: IsNumberChar(t[k])
  }

  /** Every string and key of `d` is raw text, and every number is printed as
      a number text that from_chars reads back as the same double. */
  predicate Reparsable(d: Data, fromChars: NumberParser, toText: NumberFormatter)
    decreases d
  {
    match d
    case String(t) => RawText(t)
    case Number(x) => NumberText(toText(x)) && fromChars(toText(x)) == Some(x)
    case Object(m) => forall k | k in m :: RawText(k) && Reparsable(m[k], fromChars, toText)
    case Array(a) => forall i | 0 <= i < |a| :: Reparsable(a[i], fromChars, toText)
    case _ => true
  }

  /** `t` occurs in `s` at index `a`. */
  predicate At(s: string, a: nat, t: string)
  {
    a + |t| <= |s| && MatchesFrom(s, a, t, 0)
  }

  /** s[a + k] == t[k] for k from j on, one byte after the other. */
  predicate MatchesFrom(s: string, a: nat, t: string, j: nat)
    requires j <= |t| && a + |t| <= |s|
    decreases |t| - j
  {
    j == |t| || (s[a + j] == t[j] && MatchesFrom(s, a, t, j + 1))
  }

  lemma {:induction false} MatchesPointwise(s: string, a: nat, t: string, j: nat)
    requires j <= |t| && a + |t| <= |s|
    ensures MatchesFrom(s, a, t, j) <==> forall k | j <= k < |t| :: s[a + k] == t[k]
    decreases |t| - j
  {
    if j < |t| {
      MatchesPointwise(s, a, t, j + 1);
    }
  }

  lemma AtSlice(s: string, a: nat, t: string)
    ensures At(s, a, t) <==> a + |t| <= |s| && s[a..a + |t|] == t
  {
    if a + |t| <= |s| {
      MatchesPointwise(s, a, t, 0);
      if s[a..a + |t|] == t {
        var u := s[a..a + |t|];
        assert forall k | 0 <= k < |t| :: u[k] == s[a + k];
      }
    }
  }

  lemma AtSplit(s: string, a: nat, t1: string, t2: string)
    requires At(s, a, t1 + t2)
    ensures At(s, a, t1) && At(s, a + |t1|, t2)
  {
    MatchesPointwise(s, a, t1 + t2, 0);
    MatchesPointwise(s, a, t1, 0);
    MatchesPointwise(s, a + |t1|, t2, 0);
    forall k | 0 <= k < |t1|
      ensures s[a + k] == t1[k]
    {
      assert (t1 + t2)[k] == t1[k];
    }
    forall k | 0 <= k < |t2|
      ensures s[a + |t1| + k] == t2[k]
    {
      assert (t1 + t2)[|t1| + k] == t2[k];
    }
  }

  lemma AtChar(s: string, a: nat, t: string, k: nat)
    requires At(s, a, t) && k < |t|
    ensures s[a + k] == t[k]
  {
    MatchesPointwise(s, a, t, 0);
  }

  /** The byte after a value does not extend a number. */
  predicate Delimited(s: string, e: nat)
  {
    e <= |s| && (e < |s| ==> !IsNumberChar(s[e]))
  }

  /** A byte a serialized value can start with. */
  predicate StartsValue(c: char)
  {
    c == 'n' || c == 't' || c == 'f' || c == '"' || c == '{' || c == '[' || IsDigit(c) || c == '-'
  }

  lemma SerializedStart(d: Data, l: Layout, fromChars: NumberParser, toText: NumberFormatter)
    requires Fits(l, d) && Reparsable(d, fromChars, toText)
    ensures var t := Serialized(d, l, toText); |t| > 0 && StartsValue(t[0])
  {
  }

  /** A raw string followed by a quote is scanned up to that quote. */
  lemma StringRoundTrip(s: string, p: nat, t: string)
    requires At(s, p, t + "\"") && RawText(t)
    ensures p + |t| < |s| && StringSpan(s, p) == (Some(Span(p, p + |t|)), p + |t| + 1) && s[p..p + |t|] == t
  {
    var e := p + |t|;
    AtSplit(s, p, t, "\"");
    AtSlice(s, p, t);
    AtChar(s, e, "\"", 0);
    assert EndsString(s, p, e);
    assert forall m | p <= m < e :: !EndsString(s, p, m) by {
      forall m | p <= m < e ensures !EndsString(s, p, m) {
        AtChar(s, p, t, m - p);
        assert s[p..m] == s[p..e][..m - p] == t[..m - p];
        assert !(t[m - p] == '"' && TrailingBackslashes(t[..m - p]) % 2 == 0);
      }
    }
    ClosingQuoteParity(s, p);
    var j := ClosingQuote(s, p, false);
    if j < e {
      assert false;
    } else if j > e {
      assert false;
    }
  }

  /** The number scanner stops at the first byte that is not a number byte. */
  lemma {:induction false} NumberEndAt(s: string, i: nat, j: nat)
    requires i <= j && Delimited(s, j)
    requires forall k | i <= k < j :: IsNumberChar(s[k])
    ensures NumberEnd(s, i) == j
    decreases j - i
  {
    if i < j {
      NumberEndAt(s, i + 1, j);
    }
  }

  /** The members of `m` the parser has stored after reading keys[..i]. */
  function Visited(m: map<string, Data>, keys: seq<string>, i: nat): map<string, Data>
    requires i <= |keys|
  {
    map k | k in keys[..i] && k in m :: m[k]
  }

  lemma SkipNonBlank(s: string, p: nat)
    requires p < |s| && !IsBlank(s[p])
    ensures SkipBlanks(s, p) == Read(s[p], p + 1)
  {
  }

  /** Two significant bytes in a row: a separator and what follows it. */
  lemma SkipSeparator(s: string, e: nat)
    requires e + 1 < |s| && !IsBlank(s[e]) && !IsBlank(s[e + 1])
    ensures SkipBlanks(s, e) == Read(s[e], e + 1) && SkipBlanks(s, e + 1) == Read(s[e + 1], e + 2)
  {
  }

  /** The three words, read from their first byte at pos - 1. */
  lemma WordRoundTrip(s: string, fromChars: NumberParser, w: string, d: Data, pos: nat)
    requires (w == "null" && d == Empty) || (w == "true" && d == Boolean(true)) || (w == "false" && d == Boolean(false))
    requires 1 <= pos && At(s, pos - 1, w)
    ensures pos <= |s| && s[pos - 1] == w[0]
    ensures ScalarValue(s, fromChars, w[0], pos) == Some(Parsed(d, pos - 1 + |w|))
  {
    assert w == [w[0]] + w[1..];
    AtSplit(s, pos - 1, [w[0]], w[1..]);
    AtChar(s, pos - 1, w, 0);
    AtSlice(s, pos, w[1..]);
  }

  /** A quoted raw string, read from its opening quote at pos - 1. */
  lemma QuotedRoundTrip(s: string, fromChars: NumberParser, x: string, pos: nat)
    requires 1 <= pos && At(s, pos - 1, "\"" + x + "\"") && RawText(x)
    ensures pos <= |s| && s[pos - 1] == '"'
    ensures ScalarValue(s, fromChars, '"', pos) == Some(Parsed(String(x), pos + |x| + 1))
  {
    assert "\"" + x + "\"" == "\"" + (x + "\"");
    AtSplit(s, pos - 1, "\"", x + "\"");
    AtChar(s, pos - 1, "\"", 0);
    StringRoundTrip(s, pos, x);
  }

  /** A number text read back by from_chars, from its first byte at pos - 1. */
  lemma NumberRoundTrip(s: string, fromChars: NumberParser, t: string, x: Double, pos: nat)
    requires NumberText(t) && fromChars(t) == Some(x)
    requires 1 <= pos && At(s, pos - 1, t) && Delimited(s, pos - 1 + |t|)
    ensures pos <= |s| && s[pos - 1] == t[0]
    ensures ScalarValue(s, fromChars, t[0], pos) == Some(Parsed(Number(x), pos - 1 + |t|))
  {
    var e := pos - 1 + |t|;
    AtChar(s, pos - 1, t, 0);
    assert forall k | pos <= k < e :: IsNumberChar(s[k]) by {
      forall k | pos <= k < e ensures IsNumberChar(s[k]) {
        AtChar(s, pos - 1, t, k - (pos - 1));
      }
    }
    NumberEndAt(s, pos, e);
    AtSlice(s, pos - 1, t);
  }

  /** A raw key followed by `":`. */
  lemma KeyToken(s: string, key: string, p: nat)
    requires At(s, p, key + "\":") && RawText(key)
    ensures p + |key| + 1 < |s| && s[p + |key| + 1] == ':'
    ensures StringToken(s, '"', p) == Some((key, p + |key| + 1))
  {
    assert key + "\":" == (key + "\"") + ":";
    AtSplit(s, p, key + "\"", ":");
    AtChar(s, p + |key| + 1, ":", 0);
    StringRoundTrip(s, p, key);
  }

  /** readKeyValue on a key token, `:` and a value that parses to v. */
  lemma KeyValueStep(s: string, fromChars: NumberParser, acc: map<string, Data>, key: string, p: nat, q: nat, v: Data, e: nat)
    requires 1 <= p <= |s| && StringToken(s, '"', p) == Some((key, q))
    requires q + 1 < |s| && s[q] == ':' && !IsBlank(s[q + 1])
    requires ParseValue(s, fromChars, s[q + 1], q + 2) == Some(Parsed(v, e))
    ensures KeyValue(s, fromChars, '"', p, acc) == Some(Members(if key in acc then acc else acc[key := v], e))
  {
    SkipNonBlank(s, q);
    SkipNonBlank(s, q + 1);
  }

  /** After a member, `}` ends the object. */
  lemma MembersEnd(s: string, fromChars: NumberParser, c: char, p: nat, acc: map<string, Data>, fields: map<string, Data>,
                    e: nat, next: nat)
    requires 1 <= p <= |s| && KeyValue(s, fromChars, c, p, acc) == Some(Members(fields, e))
    requires e < |s| && s[e] == '}' && next == e + 1
    ensures ObjectMembers(s, fromChars, c, p, acc) == Some(Parsed(Object(fields), next))
  {
    AfterBrace(s, fromChars, e, fields, next);
  }

  /** `}`: readMap ends the object. */
  lemma AfterBrace(s: string, fromChars: NumberParser, e: nat, fields: map<string, Data>, next: nat)
    requires 1 <= e < |s| && s[e] == '}' && next == e + 1
    ensures MembersAfter(s, fromChars, e, fields) == Some(Parsed(Object(fields), next))
  {
    SkipNonBlank(s, e);
  }

  /** After a member, `,` and the opening quote of the next key follow, and
      the members from there on parse to the whole object. */
  lemma MembersNext(s: string, fromChars: NumberParser, c: char, p: nat, acc: map<string, Data>, fields: map<string, Data>,
                     e: nat, next: nat, whole: map<string, Data>, end: nat)
    requires 1 <= p <= |s| && KeyValue(s, fromChars, c, p, acc) == Some(Members(fields, e))
    requires e + 1 < |s| && s[e] == ',' && s[e + 1] == '"' && next == e + 2
    requires ObjectMembers(s, fromChars, '"', next, fields) == Some(Parsed(Object(whole), end))
    ensures ObjectMembers(s, fromChars, c, p, acc) == Some(Parsed(Object(whole), end))
  {
    AfterComma(s, fromChars, e, fields, next);
  }

  /** `,` and the opening quote of the next key: readMap goes on. */
  lemma AfterComma(s: string, fromChars: NumberParser, e: nat, fields: map<string, Data>, next: nat)
    requires 1 <= e && e + 1 < |s| && s[e] == ',' && s[e + 1] == '"' && next == e + 2
    ensures MembersAfter(s, fromChars, e, fields) == ObjectMembers(s, fromChars, '"', next, fields)
  {
    SkipSeparator(s, e);
  }

  /** After an element, `]` ends the array. */
  lemma ElementsEnd(s: string, fromChars: NumberParser, c: char, p: nat, acc: seq<Data>, v: Data, e: nat, items: seq<Data>,
                     next: nat)
    requires 1 <= p <= |s| && ParseValue(s, fromChars, c, p) == Some(Parsed(v, e))
    requires e < |s| && s[e] == ']' && items == acc + [v] && next == e + 1
    ensures ArrayElements(s, fromChars, c, p, acc) == Some(Parsed(Array(items), next))
  {
    assert SkipBlanks(s, e) == Read(s[e], e + 1);
  }

  /** After an element, `,` and the first byte of the next element follow,
      and the elements from there on parse to the whole array. */
  lemma ElementsNext(s: string, fromChars: NumberParser, c: char, p: nat, acc: seq<Data>, v: Data, e: nat, items: seq<Data>,
                     next: nat, whole: seq<Data>, end: nat)
    requires 1 <= p <= |s| && ParseValue(s, fromChars, c, p) == Some(Parsed(v, e))
    requires e + 1 < |s| && s[e] == ',' && !IsBlank(s[e + 1]) && items == acc + [v] && next == e + 1
    requires ArrayElements(s, fromChars, s[next], next + 1, items) == Some(Parsed(Array(whole), end))
    ensures ArrayElements(s, fromChars, c, p, acc) == Some(Parsed(Array(whole), end))
  {
    SkipSeparator(s, e);
  }

  /** A serialized value, read from its first byte at pos - 1, parses to
      itself and leaves the cursor just past its last byte. */
  lemma {:induction false} ValueRoundTrip(s: string, fromChars: NumberParser, toText: NumberFormatter, d: Data, l: Layout, pos: nat)
    requires Fits(l, d) && Reparsable(d, fromChars, toText)
    requires 1 <= pos && At(s, pos - 1, Serialized(d, l, toText))
    requires Delimited(s, pos - 1 + |Serialized(d, l, toText)|)
    ensures pos <= |s|
    ensures ParseValue(s, fromChars, s[pos - 1], pos) == Some(Parsed(d, pos - 1 + |Serialized(d, l, toText)|))
    decreases d, 4
  {
    SerializedStart(d, l, fromChars, toText);
    AtChar(s, pos - 1, Serialized(d, l, toText), 0);
    match d
    case Object(m) => ObjectRoundTrip(s, fromChars, toText, m, l, pos);
    case Array(a) => ArrayRoundTrip(s, fromChars, toText, a, l, pos);
    case _ => ScalarRoundTrip(s, fromChars, toText, d, l, pos);
  }

  lemma ScalarRoundTrip(s: string, fromChars: NumberParser, toText: NumberFormatter, d: Data, l: Layout, pos: nat)
    requires !d.Object? && !d.Array?
    requires Fits(l, d) && Reparsable(d, fromChars, toText)
    requires 1 <= pos && At(s, pos - 1, Serialized(d, l, toText))
    requires Delimited(s, pos - 1 + |Serialized(d, l, toText)|)
    ensures pos <= |s| && s[pos - 1] != '{' && s[pos - 1] != '['
    ensures ScalarValue(s, fromChars, s[pos - 1], pos) == Some(Parsed(d, pos - 1 + |Serialized(d, l, toText)|))
  {
    match d
    case Empty => WordRoundTrip(s, fromChars, "null", d, pos);
    case Boolean(b) => WordRoundTrip(s, fromChars, if b then "true" else "false", d, pos);
    case String(x) => QuotedRoundTrip(s, fromChars, x, pos);
    case Number(x) => NumberRoundTrip(s, fromChars, toText(x), x, pos);
  }

  /** From index i on, no key repeats an earlier one. */
  predicate NewKeys(keys: seq<string>, i: nat)
    decreases |keys| - i
  {
    i >= |keys| || (keys[i] !in keys[..i] && NewKeys(keys, i + 1))
  }

  lemma {:induction false} DistinctNewKeys(keys: seq<string>, i: nat)
    requires Distinct(keys)
    ensures NewKeys(keys, i)
    decreases |keys| - i
  {
    if i < |keys| {
      assert forall j | 0 <= j < i :: keys[j] != keys[i];
      DistinctNewKeys(keys, i + 1);
    }
  }

  /** Once every key is read, the parser has stored all of `m`. */
  lemma VisitedAll(m: map<string, Data>, keys: seq<string>, n: nat)
    requires n == |keys| && forall k | k in m :: k in keys
    ensures Visited(m, keys, n) == m
  {
    assert keys[..n] == keys;
  }

  /** `t` is the text of a value that reads back as `v` wherever it stands in
      `s` before a delimiter; it starts with a significant byte. */
  ghost predicate ReadsBack(s: string, fromChars: NumberParser, t: string, v: Data)
  {
    && |t| > 0 && !IsBlank(t[0])
    && forall a: nat {:trigger At(s, a, t)} | At(s, a, t) && Delimited(s, a + |t|) ::
         a < |s| && ParseValue(s, fromChars, s[a], a + 1) == Some(Parsed(v, a + |t|))
  }

  /** ValueRoundTrip stated at the index `a` of the value's first byte. */
  lemma ValueRoundTripAt(s: string, fromChars: NumberParser, toText: NumberFormatter, d: Data, l: Layout, a: nat)
    requires Fits(l, d) && Reparsable(d, fromChars, toText)
    requires At(s, a, Serialized(d, l, toText)) && Delimited(s, a + |Serialized(d, l, toText)|)
    ensures a < |s| && ParseValue(s, fromChars, s[a], a + 1) == Some(Parsed(d, a + |Serialized(d, l, toText)|))
    decreases d, 5
  {
    ValueRoundTrip(s, fromChars, toText, d, l, a + 1);
  }

  /** ValueRoundTrip for every place `t` stands in `s`. */
  lemma ValueRoundTripEverywhere(s: string, fromChars: NumberParser, toText: NumberFormatter, d: Data, l: Layout, t: string)
    requires Fits(l, d) && Reparsable(d, fromChars, toText) && t == Serialized(d, l, toText)
    ensures forall a: nat {:trigger At(s, a, t)} | At(s, a, t) && Delimited(s, a + |t|) ::
      a < |s| && ParseValue(s, fromChars, s[a], a + 1) == Some(Parsed(d, a + |t|))
    ensures |t| > 0 && !IsBlank(t[0])
    decreases d, 6
  {
    SerializedStart(d, l, fromChars, toText);
    forall a: nat | At(s, a, t) && Delimited(s, a + |t|)
      ensures a < |s| && ParseValue(s, fromChars, s[a], a + 1) == Some(Parsed(d, a + |t|))
    {
      ValueRoundTripAt(s, fromChars, toText, d, l, a);
    }
  }

  /** A text that reads back wherever it stands. */
  lemma ReadsBackIntro(s: string, fromChars: NumberParser, t: string, v: Data)
    requires |t| > 0 && !IsBlank(t[0])
    requires forall a: nat {:trigger At(s, a, t)} | At(s, a, t) && Delimited(s, a + |t|) ::
      a < |s| && ParseValue(s, fromChars, s[a], a + 1) == Some(Parsed(v, a + |t|))
    ensures ReadsBack(s, fromChars, t, v)
  {
  }

  /** A serialized value reads back wherever it stands. */
  lemma ValueReadsBack(s: string, fromChars: NumberParser, toText: NumberFormatter, d: Data, l: Layout)
    requires Fits(l, d) && Reparsable(d, fromChars, toText)
    ensures ReadsBack(s, fromChars, Serialized(d, l, toText), d)
    decreases d, 7
  {
    var t := Serialized(d, l, toText);
    ValueRoundTripEverywhere(s, fromChars, toText, d, l, t);
    ReadsBackIntro(s, fromChars, t, d);
  }

  /** An object body over already serialized values: `"key":text` for the
      members from index i on, separated by commas. */
  function MembersText(keys: seq<string>, texts: seq<string>, i: nat): string
    requires |keys| == |texts| && i < |keys|
    decreases |keys| - i
  {
    "\"" + keys[i] + "\":" + texts[i] + (if i + 1 < |keys| then "," + MembersText(keys, texts, i + 1) else "")
  }

  /** An array body over already serialized values. */
  function ElementsText(texts: seq<string>, i: nat): string
    requires i < |texts|
    decreases |texts| - i
  {
    texts[i] + (if i + 1 < |texts| then "," + ElementsText(texts, i + 1) else "")
  }

  lemma {:induction false} JoinedMembersText(m: map<string, Data>, keys: seq<string>, values: seq<Layout>,
                                             toText: NumberFormatter, texts: seq<string>, i: nat)
    requires MembersListed(m, keys, values) && i < |keys| && |texts| == |keys|
    requires forall j | 0 <= j < |keys| :: texts[j] == Serialized(m[keys[j]], values[j], toText)
    ensures JoinedMembers(m, keys, values, toText, i) == MembersText(keys, texts, i)
    decreases |keys| - i
  {
    if i + 1 < |keys| {
      JoinedMembersText(m, keys, values, toText, texts, i + 1);
    }
  }

  lemma {:induction false} JoinedElementsText(a: seq<Data>, layouts: seq<Layout>, toText: NumberFormatter,
                                              texts: seq<string>, i: nat)
    requires ElementsListed(a, layouts) && |layouts| == |a| && i < |a| && |texts| == |a|
    requires forall j | 0 <= j < |a| :: texts[j] == Serialized(a[j], layouts[j], toText)
    ensures JoinedElements(a, layouts, toText, i) == ElementsText(texts, i)
    decreases |a| - i
  {
    if i + 1 < |a| {
      JoinedElementsText(a, layouts, toText, texts, i + 1);
    }
  }

  /** The members the parser has stored after reading the first i of them. */
  function Stored(keys: seq<string>, vals: seq<Data>, i: nat): map<string, Data>
    requires |keys| == |vals| && i <= |keys|
    decreases i
  {
    if i == 0 then map[] else Stored(keys, vals, i - 1)[keys[i - 1] := vals[i - 1]]
  }

  lemma {:induction false} StoredIsVisited(m: map<string, Data>, keys: seq<string>, vals: seq<Data>, i: nat)
    requires |keys| == |vals| && i <= |keys|
    requires forall j | 0 <= j < |keys| :: keys[j] in m && vals[j] == m[keys[j]]
    ensures Stored(keys, vals, i) == Visited(m, keys, i)
    decreases i
  {
    if i > 0 {
      StoredIsVisited(m, keys, vals, i - 1);
      assert keys[..i] == keys[..i - 1] + [keys[i - 1]];
    }
  }

  lemma {:induction false} StoredDomain(keys: seq<string>, vals: seq<Data>, i: nat)
    requires |keys| == |vals| && i <= |keys|
    ensures forall k :: k in Stored(keys, vals, i) <==> k in keys[..i]
    decreases i
  {
    if i > 0 {
      StoredDomain(keys, vals, i - 1);
      assert keys[..i] == keys[..i - 1] + [keys[i - 1]];
    }
  }

  /** Where the key and the value text lie, for the member at index i of an
      object body whose opening quote is at index p - 1; the value text ends
      at a byte that cannot continue a number. */
  lemma MemberPieces(s: string, keys: seq<string>, texts: seq<string>, i: nat, p: nat)
    requires |keys| == |texts| && i < |keys|
    requires 1 <= p && At(s, p - 1, MembersText(keys, texts, i) + "}")
    ensures At(s, p, keys[i] + "\":")
    ensures At(s, p + |keys[i]| + 2, texts[i])
    ensures p + |keys[i]| + 2 + |texts[i]| < |s| && Delimited(s, p + |keys[i]| + 2 + |texts[i]|)
  {
    var key, t := keys[i], texts[i];
    var more := if i + 1 < |keys| then "," + MembersText(keys, texts, i + 1) else "";
    assert MembersText(keys, texts, i) + "}" == ("\"" + key + "\":" + t) + (more + "}");
    AtSplit(s, p - 1, "\"" + key + "\":" + t, more + "}");
    AtSplit(s, p - 1, "\"" + key + "\":", t);
    assert "\"" + key + "\":" == "\"" + (key + "\":");
    AtSplit(s, p - 1, "\"", key + "\":");
    if i + 1 < |keys| {
      SeparatorNext(s, keys, texts, i, p);
    } else {
      SeparatorLast(s, keys, texts, i, p);
    }
  }

  /** After a member that is not the last: `,`, then the next member. */
  lemma SeparatorNext(s: string, keys: seq<string>, texts: seq<string>, i: nat, p: nat)
    requires |keys| == |texts| && i + 1 < |keys|
    requires 1 <= p && At(s, p - 1, MembersText(keys, texts, i) + "}")
    ensures var e := p + |keys[i]| + 2 + |texts[i]|;
      && e + 1 < |s| && s[e] == ',' && s[e + 1] == '"'
      && At(s, e + 1, MembersText(keys, texts, i + 1) + "}")
      && p + |MembersText(keys, texts, i)| == e + 2 + |MembersText(keys, texts, i + 1)|
  {
    var key, t := keys[i], texts[i];
    var rest := MembersText(keys, texts, i + 1);
    assert MembersText(keys, texts, i) + "}" == ("\"" + key + "\":" + t) + ("," + (rest + "}"));
    AtSplit(s, p - 1, "\"" + key + "\":" + t, "," + (rest + "}"));
    var e := p + |key| + 2 + |t|;
    AtSplit(s, e, ",", rest + "}");
    AtChar(s, e, ",", 0);
    AtChar(s, e + 1, rest + "}", 0);
  }

  /** After the last member: the closing `}`. */
  lemma SeparatorLast(s: string, keys: seq<string>, texts: seq<string>, i: nat, p: nat)
    requires |keys| == |texts| && i + 1 == |keys|
    requires 1 <= p && At(s, p - 1, MembersText(keys, texts, i) + "}")
    ensures var e := p + |keys[i]| + 2 + |texts[i]|;
      e < |s| && s[e] == '}' && p + |MembersText(keys, texts, i)| == e + 1
  {
    var key, t := keys[i], texts[i];
    assert MembersText(keys, texts, i) + "}" == ("\"" + key + "\":" + t) + "}";
    AtSplit(s, p - 1, "\"" + key + "\":" + t, "}");
    AtChar(s, p + |key| + 2 + |t|, "}", 0);
  }

  /** Member i of an object body whose closing brace is at index end - 1 is
      laid out in `s`, has a raw key not seen before, and has a value text
      that reads back as vals[i]. */
  ghost predicate MemberReady(s: string, fromChars: NumberParser, keys: seq<string>, texts: seq<string>, vals: seq<Data>,
                              i: nat, end: nat)
  {
    && |keys| == |texts| == |vals| && i < |keys| && NewKeys(keys, i)
    && RawText(keys[i]) && ReadsBack(s, fromChars, texts[i], vals[i]) && MemberPlaced(s, keys, texts, i, end)
  }

  /** readKeyValue at member i of an object body whose closing brace is at
      index end - 1 stores its key and value, and `,` before the next member
      or the closing `}` follows. */
  lemma MemberRead(s: string, fromChars: NumberParser, keys: seq<string>, texts: seq<string>, vals: seq<Data>,
                   i: nat, end: nat)
    requires MemberReady(s, fromChars, keys, texts, vals, i, end)
    ensures var p := end - |MembersText(keys, texts, i)|;
      && 1 <= p <= |s|
      && KeyValue(s, fromChars, '"', p, Stored(keys, vals, i))
         == Some(Members(Stored(keys, vals, i + 1), p + |keys[i]| + 2 + |texts[i]|))
  {
    var p := end - |MembersText(keys, texts, i)|;
    MemberPieces(s, keys, texts, i, p);
    var key, t := keys[i], texts[i];
    var e := p + |key| + 2 + |t|;
    KeyToken(s, key, p);
    AtChar(s, p + |key| + 2, t, 0);
    assert ParseValue(s, fromChars, s[p + |key| + 2], p + |key| + 3) == Some(Parsed(vals[i], e));
    StoredDomain(keys, vals, i);
    KeyValueStep(s, fromChars, Stored(keys, vals, i), key, p, p + |key| + 1, vals[i], e);
  }

  /** Member j of an object body whose closing brace is at index end - 1
      starts |MembersText(keys, texts, j)| bytes before it. */
  ghost predicate MemberPlaced(s: string, keys: seq<string>, texts: seq<string>, j: nat, end: nat)
  {
    && j < |keys| == |texts|
    && end >= |MembersText(keys, texts, j)| + 1
    && At(s, end - |MembersText(keys, texts, j)| - 1, MembersText(keys, texts, j) + "}")
  }

  lemma {:induction false} MembersLaidOut(s: string, keys: seq<string>, texts: seq<string>, i: nat, end: nat)
    requires MemberPlaced(s, keys, texts, i, end)
    ensures forall j | i <= j < |keys| :: MemberPlaced(s, keys, texts, j, end)
    decreases |keys| - i
  {
    if i + 1 < |keys| {
      SeparatorNext(s, keys, texts, i, end - |MembersText(keys, texts, i)|);
      MembersLaidOut(s, keys, texts, i + 1, end);
    }
  }

  /** Members i.. of an object body whose closing brace is at index end - 1
      are laid out in `s`, have raw keys that were not seen before, and have
      value texts that read back as `vals`. */
  ghost predicate MembersReady(s: string, fromChars: NumberParser, keys: seq<string>, texts: seq<string>, vals: seq<Data>,
                               i: nat, end: nat)
  {
    && |keys| == |texts| == |vals| && i < |keys| && NewKeys(keys, i)
    && forall j | i <= j < |keys| ::
         RawText(keys[j]) && ReadsBack(s, fromChars, texts[j], vals[j]) && MemberPlaced(s, keys, texts, j, end)
  }

  /** The members after member i are ready as well. */
  lemma MembersReadyNext(s: string, fromChars: NumberParser, keys: seq<string>, texts: seq<string>, vals: seq<Data>,
                         i: nat, end: nat)
    requires MembersReady(s, fromChars, keys, texts, vals, i, end) && i + 1 < |keys|
    ensures MembersReady(s, fromChars, keys, texts, vals, i + 1, end)
  {
  }

  /** Member i itself is ready. */
  lemma MemberReadyAt(s: string, fromChars: NumberParser, keys: seq<string>, texts: seq<string>, vals: seq<Data>,
                      i: nat, end: nat)
    requires MembersReady(s, fromChars, keys, texts, vals, i, end)
    ensures MemberReady(s, fromChars, keys, texts, vals, i, end)
  {
  }

  /** readKeyValue at a member that is not the last, then `,` and the
      opening quote of the next key. */
  lemma MemberReadNext(s: string, fromChars: NumberParser, keys: seq<string>, texts: seq<string>, vals: seq<Data>,
                       i: nat, end: nat, p: int, e: int, next: int)
    requires MemberReady(s, fromChars, keys, texts, vals, i, end) && i + 1 < |keys|
    requires p == end - |MembersText(keys, texts, i)| && e == p + |keys[i]| + 2 + |texts[i]|
    requires next == end - |MembersText(keys, texts, i + 1)|
    ensures 1 <= p <= |s| && e + 1 < |s| && s[e] == ',' && s[e + 1] == '"' && next == e + 2
    ensures KeyValue(s, fromChars, '"', p, Stored(keys, vals, i)) == Some(Members(Stored(keys, vals, i + 1), e))
  {
    MemberRead(s, fromChars, keys, texts, vals, i, end);
    SeparatorNext(s, keys, texts, i, p);
  }

  /** A member followed by `,`: once readMap parses the members after it, it
      parses the object from this member on. */
  lemma MemberThenNext(s: string, fromChars: NumberParser, keys: seq<string>, texts: seq<string>, vals: seq<Data>,
                       i: nat, end: nat)
    requires MemberReady(s, fromChars, keys, texts, vals, i, end) && i + 1 < |keys|
    requires 1 <= end - |MembersText(keys, texts, i + 1)| <= |s|
    requires ObjectMembers(s, fromChars, '"', end - |MembersText(keys, texts, i + 1)|, Stored(keys, vals, i + 1))
          == Some(Parsed(Object(Stored(keys, vals, |keys|)), end))
    ensures 1 <= end - |MembersText(keys, texts, i)| <= |s|
    ensures ObjectMembers(s, fromChars, '"', end - |MembersText(keys, texts, i)|, Stored(keys, vals, i))
         == Some(Parsed(Object(Stored(keys, vals, |keys|)), end))
  {
    var p := end - |MembersText(keys, texts, i)|;
    var e := p + |keys[i]| + 2 + |texts[i]|;
    var next := end - |MembersText(keys, texts, i + 1)|;
    MemberReadNext(s, fromChars, keys, texts, vals, i, end, p, e, next);
    MembersNext(s, fromChars, '"', p, Stored(keys, vals, i), Stored(keys, vals, i + 1), e, next, Stored(keys, vals, |keys|), end);
  }

  /** The last member, followed by `}`: readMap ends the object. */
  lemma MemberThenEnd(s: string, fromChars: NumberParser, keys: seq<string>, texts: seq<string>, vals: seq<Data>,
                      i: nat, end: nat)
    requires MemberReady(s, fromChars, keys, texts, vals, i, end) && i + 1 == |keys|
    ensures 1 <= end - |MembersText(keys, texts, i)| <= |s|
    ensures ObjectMembers(s, fromChars, '"', end - |MembersText(keys, texts, i)|, Stored(keys, vals, i))
         == Some(Parsed(Object(Stored(keys, vals, |keys|)), end))
  {
    MemberRead(s, fromChars, keys, texts, vals, i, end);
    var p := end - |MembersText(keys, texts, i)|;
    SeparatorLast(s, keys, texts, i, p);
    MembersEnd(s, fromChars, '"', p, Stored(keys, vals, i), Stored(keys, vals, i + 1), p + |keys[i]| + 2 + |texts[i]|, end);
  }

  /** The loop of readMap over the members from index i on of an object body
      whose closing brace is at index end - 1: it stores every member and
      stops just past the closing brace. */
  lemma {:induction false} MembersTextRoundTrip(s: string, fromChars: NumberParser, keys: seq<string>, texts: seq<string>,
                                                vals: seq<Data>, i: nat, end: nat)
    requires MembersReady(s, fromChars, keys, texts, vals, i, end)
    ensures 1 <= end - |MembersText(keys, texts, i)| <= |s|
    ensures ObjectMembers(s, fromChars, '"', end - |MembersText(keys, texts, i)|, Stored(keys, vals, i))
         == Some(Parsed(Object(Stored(keys, vals, |keys|)), end))
    decreases |keys| - i
  {
    MemberReadyAt(s, fromChars, keys, texts, vals, i, end);
    if i + 1 < |keys| {
      MembersReadyNext(s, fromChars, keys, texts, vals, i, end);
      MembersTextRoundTrip(s, fromChars, keys, texts, vals, i + 1, end);
      MemberThenNext(s, fromChars, keys, texts, vals, i, end);
    } else {
      MemberThenEnd(s, fromChars, keys, texts, vals, i, end);
    }
  }

  /** A non-empty serialized object is `{`, its body over the member texts,
      and `}`. */
  lemma ObjectBody(s: string, toText: NumberFormatter, m: map<string, Data>, l: Layout, texts: seq<string>, pos: nat)
    requires Fits(l, Object(m)) && MembersListed(m, l.keys, l.values) && |l.keys| > 0 && |texts| == |l.keys|
    requires forall j | 0 <= j < |l.keys| :: texts[j] == Serialized(m[l.keys[j]], l.values[j], toText)
    requires 1 <= pos && At(s, pos - 1, Serialized(Object(m), l, toText))
    ensures pos < |s| && s[pos - 1] == '{' && s[pos] == '"'
    ensures At(s, pos, MembersText(l.keys, texts, 0) + "}")
    ensures |Serialized(Object(m), l, toText)| == 2 + |MembersText(l.keys, texts, 0)|
  {
    var t := Serialized(Object(m), l, toText);
    assert l.keys[0] in m;
    JoinedMembersText(m, l.keys, l.values, toText, texts, 0);
    var body := MembersText(l.keys, texts, 0);
    assert t == "{" + (body + "}");
    AtSplit(s, pos - 1, "{", body + "}");
    AtChar(s, pos - 1, "{", 0);
    AtChar(s, pos, body + "}", 0);
  }

  /** Storing every listed member in order rebuilds the map. */
  lemma StoredAll(m: map<string, Data>, keys: seq<string>, vals: seq<Data>)
    requires |keys| == |vals| && forall k | k in m :: k in keys
    requires forall j | 0 <= j < |keys| :: keys[j] in m && vals[j] == m[keys[j]]
    ensures Stored(keys, vals, |keys|) == m
  {
    StoredIsVisited(m, keys, vals, |keys|);
    VisitedAll(m, keys, |keys|);
  }

  /** Every member's value text reads back as the value. */
  lemma MembersReadBack(s: string, fromChars: NumberParser, toText: NumberFormatter, m: map<string, Data>, l: Layout,
                        texts: seq<string>, vals: seq<Data>)
    requires Fits(l, Object(m)) && MembersListed(m, l.keys, l.values) && Reparsable(Object(m), fromChars, toText)
    requires |texts| == |vals| == |l.keys|
    requires forall j | 0 <= j < |l.keys| :: texts[j] == Serialized(m[l.keys[j]], l.values[j], toText)
    requires forall j | 0 <= j < |l.keys| :: vals[j] == m[l.keys[j]]
    ensures forall j | 0 <= j < |l.keys| :: RawText(l.keys[j]) && ReadsBack(s, fromChars, texts[j], vals[j])
    decreases Object(m), 0
  {
    forall j | 0 <= j < |l.keys|
      ensures RawText(l.keys[j]) && ReadsBack(s, fromChars, texts[j], vals[j])
    {
      ValueReadsBack(s, fromChars, toText, m[l.keys[j]], l.values[j]);
    }
  }

  lemma ObjectRoundTrip(s: string, fromChars: NumberParser, toText: NumberFormatter, m: map<string, Data>, l: Layout, pos: nat)
    requires Fits(l, Object(m)) && Reparsable(Object(m), fromChars, toText)
    requires 1 <= pos && At(s, pos - 1, Serialized(Object(m), l, toText))
    ensures pos < |s| && s[pos - 1] == '{'
    ensures ParseObject(s, fromChars, pos) == Some(Parsed(Object(m), pos - 1 + |Serialized(Object(m), l, toText)|))
    decreases Object(m), 3
  {
    var keys := l.keys;
    if |keys| == 0 {
      var t := Serialized(Object(m), l, toText);
      AtChar(s, pos - 1, t, 0);
      AtChar(s, pos - 1, t, 1);
      assert m == map[];
      SkipNonBlank(s, pos);
    } else {
      var texts := seq(|keys|, j requires 0 <= j < |keys| => Serialized(m[keys[j]], l.values[j], toText));
      var vals := seq(|keys|, j requires 0 <= j < |keys| => m[keys[j]]);
      FilledObjectRoundTrip(s, fromChars, toText, m, l, texts, vals, pos);
    }
  }

  /** The members of a non-empty serialized object, read from just past its
      `{`, are ready for the member loop of readMap. */
  lemma ObjectMembersReady(s: string, fromChars: NumberParser, toText: NumberFormatter, m: map<string, Data>, l: Layout,
                           texts: seq<string>, vals: seq<Data>, pos: nat)
    requires Fits(l, Object(m)) && MembersListed(m, l.keys, l.values) && Reparsable(Object(m), fromChars, toText)
    requires |l.keys| > 0 && |texts| == |vals| == |l.keys|
    requires forall j | 0 <= j < |l.keys| :: texts[j] == Serialized(m[l.keys[j]], l.values[j], toText)
    requires forall j | 0 <= j < |l.keys| :: vals[j] == m[l.keys[j]]
    requires 1 <= pos && At(s, pos - 1, Serialized(Object(m), l, toText))
    ensures pos < |s| && s[pos - 1] == '{' && s[pos] == '"'
    ensures |Serialized(Object(m), l, toText)| == 2 + |MembersText(l.keys, texts, 0)|
    ensures MembersReady(s, fromChars, l.keys, texts, vals, 0, pos + 1 + |MembersText(l.keys, texts, 0)|)
    decreases Object(m), 1
  {
    ObjectBody(s, toText, m, l, texts, pos);
    MembersReadBack(s, fromChars, toText, m, l, texts, vals);
    MembersReadyFrom(s, fromChars, l.keys, texts, vals, pos + 1 + |MembersText(l.keys, texts, 0)|);
  }

  /** Distinct raw keys with value texts that read back, laid out as an
      object body that ends at index end - 1. */
  lemma MembersReadyFrom(s: string, fromChars: NumberParser, keys: seq<string>, texts: seq<string>, vals: seq<Data>, end: nat)
    requires |keys| == |texts| == |vals| && 0 < |keys| && Distinct(keys)
    requires forall j | 0 <= j < |keys| :: RawText(keys[j]) && ReadsBack(s, fromChars, texts[j], vals[j])
    requires end >= |MembersText(keys, texts, 0)| + 1 && At(s, end - |MembersText(keys, texts, 0)| - 1, MembersText(keys, texts, 0) + "}")
    ensures MembersReady(s, fromChars, keys, texts, vals, 0, end)
  {
    DistinctNewKeys(keys, 0);
    assert MemberPlaced(s, keys, texts, 0, end);
    MembersLaidOut(s, keys, texts, 0, end);
  }

  /** The member loop of readMap, started on the first key with no member
      stored yet, rebuilds the whole map. */
  lemma MembersFromStart(s: string, fromChars: NumberParser, m: map<string, Data>, keys: seq<string>, texts: seq<string>,
                         vals: seq<Data>, p: nat, end: nat)
    requires MembersReady(s, fromChars, keys, texts, vals, 0, end) && p == end - |MembersText(keys, texts, 0)|
    requires forall k | k in m :: k in keys
    requires forall j | 0 <= j < |keys| :: keys[j] in m && vals[j] == m[keys[j]]
    ensures 1 <= p <= |s| && ObjectMembers(s, fromChars, '"', p, map[]) == Some(Parsed(Object(m), end))
  {
    MembersTextRoundTrip(s, fromChars, keys, texts, vals, 0, end);
    assert Stored(keys, vals, 0) == map[];
    StoredAll(m, keys, vals);
  }

  /** readMap on an opening quote. */
  lemma ObjectOpenQuote(s: string, fromChars: NumberParser, pos: nat)
    requires pos < |s| && s[pos] == '"'
    ensures ParseObject(s, fromChars, pos) == ObjectMembers(s, fromChars, '"', pos + 1, map[])
  {
    SkipNonBlank(s, pos);
  }

  /** A non-empty object, over its member texts and values in layout order. */
  lemma FilledObjectRoundTrip(s: string, fromChars: NumberParser, toText: NumberFormatter, m: map<string, Data>, l: Layout,
                              texts: seq<string>, vals: seq<Data>, pos: nat)
    requires Fits(l, Object(m)) && MembersListed(m, l.keys, l.values) && Reparsable(Object(m), fromChars, toText)
    requires |l.keys| > 0 && |texts| == |vals| == |l.keys|
    requires forall j | 0 <= j < |l.keys| :: texts[j] == Serialized(m[l.keys[j]], l.values[j], toText)
    requires forall j | 0 <= j < |l.keys| :: vals[j] == m[l.keys[j]]
    requires 1 <= pos && At(s, pos - 1, Serialized(Object(m), l, toText))
    ensures pos < |s| && s[pos - 1] == '{'
    ensures ParseObject(s, fromChars, pos) == Some(Parsed(Object(m), pos - 1 + |Serialized(Object(m), l, toText)|))
    decreases Object(m), 2
  {
    ObjectMembersReady(s, fromChars, toText, m, l, texts, vals, pos);
    var end := pos - 1 + |Serialized(Object(m), l, toText)|;
    MembersFromStart(s, fromChars, m, l.keys, texts, vals, pos + 1, end);
    ObjectOpenQuote(s, fromChars, pos);
  }

  /** After an element that is not the last: `,`, then the next element. */
  lemma ElementSeparatorNext(s: string, texts: seq<string>, i: nat, a: nat, next: nat)
    requires i + 1 < |texts| && |texts[i + 1]| > 0
    requires At(s, a, ElementsText(texts, i) + "]") && next == a + |texts[i]| + 1
    ensures next < |s| && s[next - 1] == ',' && s[next] == texts[i + 1][0]
    ensures At(s, next, ElementsText(texts, i + 1) + "]")
    ensures a + 1 + |ElementsText(texts, i)| == next + 1 + |ElementsText(texts, i + 1)|
  {
    var rest := ElementsText(texts, i + 1);
    assert ElementsText(texts, i) + "]" == texts[i] + ("," + (rest + "]"));
    AtSplit(s, a, texts[i], "," + (rest + "]"));
    AtSplit(s, next - 1, ",", rest + "]");
    AtChar(s, next - 1, ",", 0);
    AtChar(s, next, rest + "]", 0);
  }

  /** After the last element: the closing `]`. */
  lemma ElementSeparatorLast(s: string, texts: seq<string>, i: nat, a: nat)
    requires i + 1 == |texts| && At(s, a, ElementsText(texts, i) + "]")
    ensures a + |texts[i]| < |s| && s[a + |texts[i]|] == ']'
    ensures a + 1 + |ElementsText(texts, i)| == a + |texts[i]| + 1
  {
    assert ElementsText(texts, i) + "]" == texts[i] + "]";
    AtSplit(s, a, texts[i], "]");
    AtChar(s, a + |texts[i]|, "]", 0);
  }

  /** Where the element text at index i of an array body that starts at
      index a lies; it ends at a byte that cannot continue a number. */
  lemma ElementPieces(s: string, texts: seq<string>, i: nat, a: nat)
    requires i < |texts| && (i + 1 < |texts| ==> |texts[i + 1]| > 0)
    requires At(s, a, ElementsText(texts, i) + "]")
    ensures At(s, a, texts[i]) && a + |texts[i]| < |s| && Delimited(s, a + |texts[i]|)
  {
    var more := if i + 1 < |texts| then "," + ElementsText(texts, i + 1) else "";
    assert ElementsText(texts, i) + "]" == texts[i] + (more + "]");
    AtSplit(s, a, texts[i], more + "]");
    if i + 1 < |texts| {
      ElementSeparatorNext(s, texts, i, a, a + |texts[i]| + 1);
    } else {
      ElementSeparatorLast(s, texts, i, a);
    }
  }

  /** An element followed by `,`: once readArray parses the elements after
      it, it parses the array from this element on. */
  lemma ElementThenNext(s: string, fromChars: NumberParser, texts: seq<string>, vals: seq<Data>, i: nat, a: nat,
                        next: nat, end: nat)
    requires |texts| == |vals| && i + 1 < |texts| && |texts[i + 1]| > 0 && !IsBlank(texts[i + 1][0])
    requires ReadsBack(s, fromChars, texts[i], vals[i])
    requires At(s, a, ElementsText(texts, i) + "]") && next == a + |texts[i]| + 1 && next < |s|
    requires ArrayElements(s, fromChars, s[next], next + 1, vals[..i + 1]) == Some(Parsed(Array(vals), end))
    ensures a < |s| && ArrayElements(s, fromChars, s[a], a + 1, vals[..i]) == Some(Parsed(Array(vals), end))
  {
    ElementPieces(s, texts, i, a);
    ElementSeparatorNext(s, texts, i, a, next);
    var e := next - 1;
    assert ParseValue(s, fromChars, s[a], a + 1) == Some(Parsed(vals[i], e));
    assert vals[..i] + [vals[i]] == vals[..i + 1];
    ElementsNext(s, fromChars, s[a], a + 1, vals[..i], vals[i], e, vals[..i + 1], next, vals, end);
  }

  /** The last element, followed by `]`: readArray ends the array. */
  lemma ElementThenEnd(s: string, fromChars: NumberParser, texts: seq<string>, vals: seq<Data>, i: nat, a: nat)
    requires |texts| == |vals| && i + 1 == |texts|
    requires ReadsBack(s, fromChars, texts[i], vals[i])
    requires At(s, a, ElementsText(texts, i) + "]")
    ensures a < |s|
    ensures ArrayElements(s, fromChars, s[a], a + 1, vals[..i]) == Some(Parsed(Array(vals), a + 1 + |ElementsText(texts, i)|))
  {
    ElementPieces(s, texts, i, a);
    ElementSeparatorLast(s, texts, i, a);
    var e := a + |texts[i]|;
    assert ParseValue(s, fromChars, s[a], a + 1) == Some(Parsed(vals[i], e));
    assert vals[..i] + [vals[i]] == vals;
    ElementsEnd(s, fromChars, s[a], a + 1, vals[..i], vals[i], e, vals, a + 1 + |ElementsText(texts, i)|);
  }

  /** The loop of readArray over an array body that starts at index a: it
      collects every element and stops just past the closing bracket. */
  lemma {:induction false} ElementsTextRoundTrip(s: string, fromChars: NumberParser, texts: seq<string>,
                                                 vals: seq<Data>, i: nat, a: nat)
    requires |texts| == |vals| && i < |texts|
    requires forall j | i <= j < |texts| :: ReadsBack(s, fromChars, texts[j], vals[j])
    requires At(s, a, ElementsText(texts, i) + "]")
    ensures a < |s|
    ensures ArrayElements(s, fromChars, s[a], a + 1, vals[..i])
         == Some(Parsed(Array(vals), a + 1 + |ElementsText(texts, i)|))
    decreases |texts| - i
  {
    assert ReadsBack(s, fromChars, texts[i], vals[i]);
    if i + 1 < |texts| {
      assert ReadsBack(s, fromChars, texts[i + 1], vals[i + 1]);
      var next := a + |texts[i]| + 1;
      ElementSeparatorNext(s, texts, i, a, next);
      ElementsTextRoundTrip(s, fromChars, texts, vals, i + 1, next);
      ElementThenNext(s, fromChars, texts, vals, i, a, next, next + 1 + |ElementsText(texts, i + 1)|);
    } else {
      ElementThenEnd(s, fromChars, texts, vals, i, a);
    }
  }

  /** readArray on a significant first byte other than `]`. */
  lemma ArrayOpen(s: string, fromChars: NumberParser, pos: nat)
    requires pos < |s| && !IsBlank(s[pos]) && s[pos] != ']'
    ensures ParseArray(s, fromChars, pos) == ArrayElements(s, fromChars, s[pos], pos + 1, [])
  {
    SkipNonBlank(s, pos);
  }

  /** A non-empty serialized array is `[`, its body over the element texts,
      and `]`. */
  lemma ArrayBody(s: string, toText: NumberFormatter, a: seq<Data>, l: Layout, texts: seq<string>, pos: nat)
    requires Fits(l, Array(a)) && ElementsListed(a, l.elements) && |a| > 0 && |texts| == |a| && |texts[0]| > 0
    requires forall j | 0 <= j < |a| :: texts[j] == Serialized(a[j], l.elements[j], toText)
    requires 1 <= pos && At(s, pos - 1, Serialized(Array(a), l, toText))
    ensures pos < |s| && s[pos - 1] == '[' && s[pos] == texts[0][0]
    ensures At(s, pos, ElementsText(texts, 0) + "]")
    ensures |Serialized(Array(a), l, toText)| == 2 + |ElementsText(texts, 0)|
  {
    var t := Serialized(Array(a), l, toText);
    JoinedElementsText(a, l.elements, toText, texts, 0);
    var body := ElementsText(texts, 0);
    assert t == "[" + (body + "]");
    AtSplit(s, pos - 1, "[", body + "]");
    AtChar(s, pos - 1, "[", 0);
    AtChar(s, pos, body + "]", 0);
  }

  /** Every element's text reads back as the element. */
  lemma ElementsReadBack(s: string, fromChars: NumberParser, toText: NumberFormatter, a: seq<Data>, l: Layout,
                         texts: seq<string>)
    requires Fits(l, Array(a)) && ElementsListed(a, l.elements) && Reparsable(Array(a), fromChars, toText) && |texts| == |a|
    requires forall j | 0 <= j < |a| :: texts[j] == Serialized(a[j], l.elements[j], toText)
    ensures forall j | 0 <= j < |a| :: ReadsBack(s, fromChars, texts[j], a[j])
    decreases Array(a), 0
  {
    forall j | 0 <= j < |a|
      ensures ReadsBack(s, fromChars, texts[j], a[j])
    {
      ValueReadsBack(s, fromChars, toText, a[j], l.elements[j]);
    }
  }

  /** The body of a non-empty serialized array: its element texts lie after
      the `[` and each reads back as its element. */
  lemma ArrayElementsReady(s: string, fromChars: NumberParser, toText: NumberFormatter, a: seq<Data>, l: Layout,
                           texts: seq<string>, pos: nat)
    requires Fits(l, Array(a)) && Reparsable(Array(a), fromChars, toText) && |a| > 0 && |texts| == |a|
    requires |l.elements| == |a| && ElementsListed(a, l.elements)
    requires forall j | 0 <= j < |a| :: texts[j] == Serialized(a[j], l.elements[j], toText)
    requires 1 <= pos && At(s, pos - 1, Serialized(Array(a), l, toText))
    ensures pos < |s| && s[pos - 1] == '['
    ensures forall j | 0 <= j < |a| :: ReadsBack(s, fromChars, texts[j], a[j])
    ensures At(s, pos, ElementsText(texts, 0) + "]")
    ensures |Serialized(Array(a), l, toText)| == 2 + |ElementsText(texts, 0)|
    decreases Array(a), 1
  {
    ElementsReadBack(s, fromChars, toText, a, l, texts);
    assert ReadsBack(s, fromChars, texts[0], a[0]);
    ArrayBody(s, toText, a, l, texts, pos);
  }

  /** readArray from the first element of a body laid out after the `[`. */
  lemma ElementsFromStart(s: string, fromChars: NumberParser, texts: seq<string>, vals: seq<Data>, pos: nat, end: nat)
    requires |texts| == |vals| > 0
    requires forall j | 0 <= j < |texts| :: ReadsBack(s, fromChars, texts[j], vals[j])
    requires At(s, pos, ElementsText(texts, 0) + "]") && end == pos + 1 + |ElementsText(texts, 0)|
    ensures pos < |s| && ParseArray(s, fromChars, pos) == Some(Parsed(Array(vals), end))
  {
    assert ReadsBack(s, fromChars, texts[0], vals[0]);
    assert vals[..0] == [];
    ElementsTextRoundTrip(s, fromChars, texts, vals, 0, pos);
    AtChar(s, pos, ElementsText(texts, 0) + "]", 0);
    ArrayOpen(s, fromChars, pos);
  }

  lemma ArrayRoundTrip(s: string, fromChars: NumberParser, toText: NumberFormatter, a: seq<Data>, l: Layout, pos: nat)
    requires Fits(l, Array(a)) && Reparsable(Array(a), fromChars, toText)
    requires 1 <= pos && At(s, pos - 1, Serialized(Array(a), l, toText))
    ensures pos < |s| && s[pos - 1] == '['
    ensures ParseArray(s, fromChars, pos) == Some(Parsed(Array(a), pos - 1 + |Serialized(Array(a), l, toText)|))
    decreases Array(a), 2
  {
    var t := Serialized(Array(a), l, toText);
    if |a| == 0 {
      AtChar(s, pos - 1, t, 0);
      AtChar(s, pos - 1, t, 1);
      SkipNonBlank(s, pos);
    } else {
      var texts := seq(|a|, j requires 0 <= j < |a| => Serialized(a[j], l.elements[j], toText));
      ArrayElementsReady(s, fromChars, toText, a, l, texts, pos);
      ElementsFromStart(s, fromChars, texts, a, pos, pos - 1 + |t|);
    }
  }

  /** parseFromString of the intended serialization gives the value back. */
  lemma RoundTrip(d: Data, l: Layout, fromChars: NumberParser, toText: NumberFormatter)
    requires Fits(l, d) && Reparsable(d, fromChars, toText)
    ensures ParseDocument(Serialized(d, l, toText), fromChars) == Some(d)
  {
    var s := Serialized(d, l, toText);
    SerializedStart(d, l, fromChars, toText);
    AtSlice(s, 0, s);
    ValueRoundTrip(s, fromChars, toText, d, l, 1);
  }

  /** The same for what `write` produces, as long as no container is empty. */
  lemma WrittenRoundTrip(d: Data, l: Layout, fromChars: NumberParser, toText: NumberFormatter)
    requires Fits(l, d) && Reparsable(d, fromChars, toText) && NoEmptyContainer(d)
    ensures ParseDocument(Written(d, l, toText), fromChars) == Some(d)
  {
    WrittenIsSerialized(d, l, toText);
    RoundTrip(d, l, fromChars, toText);
  }
}
