/** Decoding escaped strings in place, and lists of them separated by semicolons. */
module HexStrings {

  import opened ByteStrings
  import opened Options
  import opened Escapes

  /** The string a text stands for; nothing if an escape sequence in it is malformed. */
  function Unescape(text: Bytes): (r: Option<Bytes>)
    ensures r.Some? ==> |r.value| <= |text|
  {
    if text == [] then Some([])
    else if text[0] != BACKSLASH then Prepend(text[0], Unescape(text[1..]))
    else match Escape(text)
      case None => None
      case Some((b, n)) => Prepend(b, Unescape(text[n..]))
  }

  function Prepend(b: Byte, r: Option<Bytes>): Option<Bytes> {
    if r.None? then None else Some([b] + r.value)
  }

  ghost function Behind(s: Bytes, r: Option<Bytes>): Option<Bytes> {
    if r.None? then None else Some(s + r.value)
  }

  lemma BehindPrepend(s: Bytes, b: Byte, r: Option<Bytes>)
    ensures Behind(s, Prepend(b, r)) == Behind(s + [b], r)
  {
    if r.Some? { assert s + ([b] + r.value) == s + [b] + r.value; }
  }

  /** One step of the decoder, at `rest` after `done`. */
  lemma DecodeStep(done: Bytes, rest: Bytes)
    requires rest != []
    ensures rest[0] != BACKSLASH ==> Behind(done, Unescape(rest)) == Behind(done + [rest[0]], Unescape(rest[1..]))
    ensures rest[0] == BACKSLASH && Escape(rest).None? ==> Unescape(rest).None?
    ensures rest[0] == BACKSLASH && Escape(rest).Some? ==>
              var (b, n) := Escape(rest).value; Behind(done, Unescape(rest)) == Behind(done + [b], Unescape(rest[n..]))
  {
    if rest[0] != BACKSLASH {
      BehindPrepend(done, rest[0], Unescape(rest[1..]));
    } else if Escape(rest).Some? {
      var (b, n) := Escape(rest).value;
      BehindPrepend(done, b, Unescape(rest[n..]));
    }
  }

  lemma DecodeEnds(s: Bytes)
    ensures Behind([], Unescape(s)) == Unescape(s)
    ensures Behind(s, Unescape([])) == Some(s)
  {
    assert s + [] == s;
    if Unescape(s).Some? { assert [] + Unescape(s).value == Unescape(s).value; }
  }

  /** What results when the decoder has come to `i`. */
  ghost function DecodedFrom(line: Bytes, i: nat): Option<Bytes> {
    if i > |line| then Some(line) else Behind(line[..i], Unescape(line[i..]))
  }

  lemma AtBounds(line: Bytes)
    ensures DecodedFrom(line, 0) == Unescape(line)
    ensures DecodedFrom(line, |line|) == DecodedFrom(line, |line| + 1)
  {
    hide Unescape;
    assert line[..0] == [] && line[0..] == line && line[|line|..] == [] && line[..|line|] == line;
    DecodeEnds(line);
  }

  /** The first `n` characters at `i` are replaced by the byte they stand for. */
  lemma AtByte(line: Bytes, i: nat, b: Byte, n: nat)
    requires i < |line|
    requires if line[i] == BACKSLASH then Escape(line[i..]) == Some((b, n)) else b == line[i] && n == 1
    ensures i + n <= |line| && DecodedFrom(line[..i] + [b] + line[i + n..], i + 1) == DecodedFrom(line, i)
  {
    hide Unescape, Escape;
    DecodeStep(line[..i], line[i..]);
    var line' := line[..i] + [b] + line[i + n..];
    assert line'[..i + 1] == line[..i] + [b] && line'[i + 1..] == line[i..][n..];
  }

  lemma AtError(line: Bytes, i: nat)
    requires i < |line| && line[i] == BACKSLASH && Escape(line[i..]).None?
    ensures DecodedFrom(line, i).None?
  {
    hide Unescape, Escape;
    DecodeStep(line[..i], line[i..]);
  }

  /** Replaces escape sequences from left to right in the string itself; `err` is set on a malformed one. */
  method DecodeHexString(text: Bytes, err: bool) returns (r: Bytes, err': bool)
    ensures Unescape(text).Some? ==> r == Unescape(text).value && err' == err
    ensures Unescape(text).None? ==> r == [] && err'
  {
    hide Unescape, Escape, DecodedFrom;
    var line, i := text, 0;
    AtBounds(text);
    while i <= |line|
      invariant 0 <= i <= |line| + 1
      invariant DecodedFrom(line, i) == Unescape(text)
      decreases |line| - i
    {
      if i == |line| {
        AtBounds(line);
      } else if line[i] == BACKSLASH {
        var escape := Escape(line[i..]);
        if escape == None {
          AtError(line, i);
          return [], true;
        }
        var (b, n) := escape.value;
        AtByte(line, i, b, n);
        line := line[..i] + [b] + line[i + n..];
      } else {
        AtByte(line, i, line[i], 1);
        assert line == line[..i] + [line[i]] + line[i + 1..];
      }
      i := i + 1;
    }
    assert DecodedFrom(line, i) == Some(line) by { AtEnd(line); }
    return line, err;
  }

  lemma AtEnd(line: Bytes)
    ensures DecodedFrom(line, |line| + 1) == Some(line)
  {
  }

  /** Text after a well-formed text is read on its own. */
  lemma {:induction false} UnescapeJoined(a: Bytes, b: Bytes)
    requires Unescape(a).Some?
    ensures Unescape(a + b) == Behind(Unescape(a).value, Unescape(b))
    decreases |a|
  {
    if a == [] {
      assert a + b == b;
      if Unescape(b).Some? { assert [] + Unescape(b).value == Unescape(b).value; }
    } else if a[0] != BACKSLASH {
      assert (a + b)[1..] == a[1..] + b;
      UnescapeJoined(a[1..], b);
      PrependBehind(a[0], Unescape(a[1..]).value, Unescape(b));
    } else {
      var (c, n) := Escape(a).value;
      assert Escape(a + b) == Escape(a);
      assert (a + b)[n..] == a[n..] + b;
      UnescapeJoined(a[n..], b);
      PrependBehind(c, Unescape(a[n..]).value, Unescape(b));
    }
  }

  lemma PrependBehind(b: Byte, s: Bytes, r: Option<Bytes>)
    ensures Prepend(b, Behind(s, r)) == Behind([b] + s, r)
  {
    if r.Some? { assert [b] + (s + r.value) == [b] + s + r.value; }
  }

  /** Printed strings are decoded to themselves, also where bytes are backslashes, quotes or semicolons. */
  lemma {:induction false} UnescapeToHex(s: Bytes)
    ensures Unescape(ToHex(s)) == Some(s)
    ensures SEMICOLON !in ToHex(s) && forall c :: c in ToHex(s) ==> !(0x41 <= c <= 0x46)
  {
    if s != [] {
      EscapeOfHexByte(s[0], ToHex(s[1..]));
      UnescapeToHex(s[1..]);
      assert [s[0]] + s[1..] == s;
    }
  }

  /** Each byte is written in a way that is allowed for it. */
  ghost predicate Spelling(text: Bytes, s: Bytes, forms: seq<Form>) {
    && |forms| == |s| && text == Spell(s, forms)
    && forall i :: 0 <= i < |s| ==> if forms[i].Plain? then s[i] != BACKSLASH else StandsFor(forms[i], s[i])
  }

  /** However the bytes of a string are written, each in a way allowed for it, the text is decoded to the string. */
  lemma {:induction false} UnescapeSpelled(text: Bytes, s: Bytes, forms: seq<Form>)
    requires Spelling(text, s, forms)
    ensures Unescape(text) == Some(s)
    decreases |s|
  {
    hide Escape;
    if s != [] {
      var rest := Spell(s[1..], forms[1..]);
      UnescapeSpelled(rest, s[1..], forms[1..]);
      assert [s[0]] + s[1..] == s;
      if forms[0].Plain? {
        assert text[1..] == rest;
      } else {
        EscapeOfSpelled(s[0], forms[0], rest);
      }
    }
  }

  /** Every text that is decoded is a way to write its string. */
  lemma {:induction false} SpellingOf(text: Bytes) returns (forms: seq<Form>)
    requires Unescape(text).Some?
    ensures Spelling(text, Unescape(text).value, forms)
    decreases |text|
  {
    hide Escape;
    forms := [];
    if text != [] {
      var form, b, n := Plain, text[0], 1;
      if text[0] == BACKSLASH {
        form := SpelledByEscape(text);
        b, n := Escape(text).value.0, Escape(text).value.1;
      } else {
        assert text == SpellByte(b, form) + text[1..];
      }
      forms := SpellingOf(text[n..]);
      OneMoreSpelled(text[n..], Unescape(text[n..]).value, forms, b, form);
      forms := [form] + forms;
    }
  }

  lemma OneMoreSpelled(text: Bytes, s: Bytes, forms: seq<Form>, b: Byte, form: Form)
    requires Spelling(text, s, forms) && if form.Plain? then b != BACKSLASH else StandsFor(form, b)
    ensures Spelling(SpellByte(b, form) + text, [b] + s, [form] + forms)
  {
    assert ([b] + s)[1..] == s && ([form] + forms)[1..] == forms;
  }

  /** A text is decoded to a string exactly if it writes its bytes in allowed ways. */
  lemma UnescapeIff(text: Bytes, s: Bytes)
    ensures Unescape(text) == Some(s) <==> exists forms :: Spelling(text, s, forms)
  {
    if Unescape(text) == Some(s) { var forms := SpellingOf(text); }
    if forms :| Spelling(text, s, forms) { UnescapeSpelled(text, s, forms); }
  }

  // ---------- Lists of prefixes ----------

  /** The position of the first semicolon, or the length. */
  function FindSemicolon(s: Bytes): (n: nat)
    ensures n <= |s|
  {
    if s == [] || s[0] == SEMICOLON then 0 else FindSemicolon(s[1..]) + 1
  }

  lemma {:induction false} FindAfter(text: Bytes, rest: Bytes)
    requires SEMICOLON !in text
    ensures FindSemicolon(text) == FindSemicolon(text + [SEMICOLON] + rest) == |text|
  {
    if text != [] {
      assert (text + [SEMICOLON] + rest)[1..] == text[1..] + [SEMICOLON] + rest;
      FindAfter(text[1..], rest);
    }
  }

  /** The parts between semicolons; an empty last part is dropped. */
  function Split(s: Bytes): seq<Bytes>
    decreases |s|
  {
    if s == [] then []
    else
      var n := FindSemicolon(s);
      [s[..n]] + if n == |s| then [] else Split(s[n + 1..])
  }

  /** The parts decoded, up to the first malformed one. */
  function DecodeAll(texts: seq<Bytes>): (seq<Bytes>, bool) {
    if texts == [] then ([], false)
    else match Unescape(texts[0])
      case None => ([], true)
      case Some(s) => var (rest, err) := DecodeAll(texts[1..]); ([s] + rest, err)
  }

  ghost function FollowedBy(results: seq<Bytes>, r: (seq<Bytes>, bool)): (seq<Bytes>, bool) {
    (results + r.0, r.1)
  }

  /** What is split when the parser has come to `p`, which may be past the end. */
  ghost function SplitFrom(line: Bytes, p: nat): seq<Bytes> {
    if p <= |line| then Split(line[p..]) else []
  }

  lemma SplitNext(line: Bytes, p: nat)
    requires p < |line|
    ensures var end := p + FindSemicolon(line[p..]);
            SplitFrom(line, p) == [line[p..end]] + SplitFrom(line, end + 1)
  {
    var end := p + FindSemicolon(line[p..]);
    assert line[p..][..end - p] == line[p..end];
    if end < |line| {
      assert line[p..][end - p + 1..] == line[end + 1..];
    }
  }

  lemma DecodeNext(results: seq<Bytes>, text: Bytes, rest: seq<Bytes>)
    ensures var r := Unescape(text);
            FollowedBy(results, DecodeAll([text] + rest)) ==
              if r.None? then (results, true) else FollowedBy(results + [r.value], DecodeAll(rest))
  {
    assert ([text] + rest)[1..] == rest;
    if Unescape(text).None? {
      assert results + [] == results;
    } else {
      var s := Unescape(text).value;
      assert results + ([s] + DecodeAll(rest).0) == results + [s] + DecodeAll(rest).0;
    }
  }

  method ParsePrefixesLine(line: Bytes) returns (results: seq<Bytes>, err: bool)
    ensures (results, err) == DecodeAll(Split(line))
  {
    hide Split, SplitFrom, FindSemicolon, Unescape, DecodeAll;
    results, err := [], false;
    var p := 0;
    SplitStart(line);
    assert FollowedBy([], DecodeAll(Split(line))) == DecodeAll(Split(line)) by {
      assert [] + DecodeAll(Split(line)).0 == DecodeAll(Split(line)).0;
    }
    while p < |line|
      invariant 0 <= p <= |line| + 1 && !err
      invariant FollowedBy(results, DecodeAll(SplitFrom(line, p))) == DecodeAll(Split(line))
    {
      var end := p + FindSemicolon(line[p..]);
      SplitNext(line, p);
      DecodeNext(results, line[p..end], SplitFrom(line, end + 1));
      var prefix;
      prefix, err := DecodeHexString(line[p..end], err);
      if err {
        return;
      }
      results := results + [prefix];
      p := end + 1;
    }
    SplitNothing(line, p);
    assert results + [] == results;
  }

  lemma SplitStart(line: Bytes)
    ensures SplitFrom(line, 0) == Split(line)
  {
    assert line[0..] == line;
  }

  lemma SplitNothing(line: Bytes, p: nat)
    requires p >= |line|
    ensures SplitFrom(line, p) == [] && DecodeAll(SplitFrom(line, p)) == ([], false)
  {
  }

  /** Texts, each followed by a semicolon but the last. */
  function Join(texts: seq<Bytes>): Bytes {
    if texts == [] then []
    else if |texts| == 1 then texts[0]
    else texts[0] + [SEMICOLON] + Join(texts[1..])
  }

  lemma SplitFirst(text: Bytes, rest: Bytes)
    requires SEMICOLON !in text
    ensures Split(text + [SEMICOLON] + rest) == [text] + Split(rest)
    ensures text != [] ==> Split(text) == [text]
  {
    var s := text + [SEMICOLON] + rest;
    FindAfter(text, rest);
    assert s[..|text|] == text && s[|text| + 1..] == rest && text[..|text|] == text;
  }

  /** Texts without semicolons are split as they were joined, but an empty last one is lost. */
  lemma {:induction false} SplitJoin(texts: seq<Bytes>)
    requires forall t :: t in texts ==> SEMICOLON !in t
    ensures Split(Join(texts)) == if texts == [] || texts[|texts| - 1] != [] then texts else texts[..|texts| - 1]
  {
    hide Split;
    SplitStart([]);
    SplitNothing([], 0);
    if |texts| == 1 {
      if texts[0] != [] { SplitFirst(texts[0], []); }
    } else if |texts| > 1 {
      assert texts == [texts[0]] + texts[1..];
      assert texts[..|texts| - 1] == [texts[0]] + texts[1..][..|texts| - 2];
      SplitFirst(texts[0], Join(texts[1..]));
      SplitJoin(texts[1..]);
    }
  }

  function HexAll(prefixes: seq<Bytes>): (r: seq<Bytes>)
    ensures |r| == |prefixes|
  {
    if prefixes == [] then [] else [ToHex(prefixes[0])] + HexAll(prefixes[1..])
  }

  lemma {:induction false} DecodeHexAll(prefixes: seq<Bytes>)
    ensures DecodeAll(HexAll(prefixes)) == (prefixes, false)
    ensures forall t :: t in HexAll(prefixes) ==> SEMICOLON !in t
    ensures prefixes != [] ==> HexAll(prefixes)[|prefixes| - 1] == ToHex(prefixes[|prefixes| - 1])
  {
    if prefixes != [] {
      DecodeHexAll(prefixes[1..]);
      UnescapeToHex(prefixes[0]);
      assert HexAll(prefixes)[1..] == HexAll(prefixes[1..]);
      assert [prefixes[0]] + prefixes[1..] == prefixes;
    }
  }

  lemma {:induction false} HexAllBefore(prefixes: seq<Bytes>)
    requires prefixes != []
    ensures HexAll(prefixes)[..|prefixes| - 1] == HexAll(prefixes[..|prefixes| - 1])
  {
    if |prefixes| > 1 {
      HexAllBefore(prefixes[1..]);
      assert prefixes[..|prefixes| - 1][1..] == prefixes[1..][..|prefixes| - 2];
    }
  }

  /** A list of prefixes printed and joined is parsed to the same list exactly if its last prefix is not empty. */
  lemma PrefixesRoundTripIff(prefixes: seq<Bytes>)
    ensures DecodeAll(Split(Join(HexAll(prefixes)))) == (prefixes, false) <==>
              prefixes == [] || prefixes[|prefixes| - 1] != []
  {
    hide Split, Join, DecodeAll;
    DecodeHexAll(prefixes);
    SplitJoin(HexAll(prefixes));
    if prefixes != [] && prefixes[|prefixes| - 1] == [] {
      HexAllBefore(prefixes);
      DecodeHexAll(prefixes[..|prefixes| - 1]);
    }
  }

  function Semicolons(s: Bytes): nat {
    if s == [] then 0 else (if s[0] == SEMICOLON then 1 else 0) + Semicolons(s[1..])
  }

  lemma {:induction false} SemicolonsAppend(a: Bytes, b: Bytes)
    ensures Semicolons(a + b) == Semicolons(a) + Semicolons(b)
  {
    if a == [] {
      assert a + b == b;
    } else {
      assert (a + b)[1..] == a[1..] + b;
      SemicolonsAppend(a[1..], b);
    }
  }

  lemma {:induction false} NoSemicolons(s: Bytes)
    ensures Semicolons(s) == 0 <==> SEMICOLON !in s
  {
    if s != [] {
      NoSemicolons(s[1..]);
      assert s == [s[0]] + s[1..];
    }
  }

  function TotalLength(strings: seq<Bytes>): nat {
    if strings == [] then 0 else |strings[0]| + TotalLength(strings[1..])
  }

  /** The strings that well-formed texts stand for. */
  function Strings(texts: seq<Bytes>): seq<Bytes>
    requires forall t :: t in texts ==> Unescape(t).Some?
  {
    if texts == [] then [] else
      assert texts[0] in texts;
      [Unescape(texts[0]).value] + Strings(texts[1..])
  }

  lemma UnescapeSemicolon(rest: Bytes)
    ensures Unescape([SEMICOLON] + rest) == Prepend(SEMICOLON, Unescape(rest))
  {
    assert ([SEMICOLON] + rest)[1..] == rest;
  }

  /** A text, a semicolon and another text stand for both strings and a byte between them. */
  lemma UnescapeTwo(text: Bytes, rest: Bytes)
    requires Unescape(text).Some? && Unescape(rest).Some?
    ensures Unescape(text + [SEMICOLON] + rest).Some?
    ensures |Unescape(text + [SEMICOLON] + rest).value| == |Unescape(text).value| + 1 + |Unescape(rest).value|
  {
    hide Unescape;
    assert text + [SEMICOLON] + rest == text + ([SEMICOLON] + rest);
    UnescapeJoined(text, [SEMICOLON] + rest);
    UnescapeSemicolon(rest);
  }

  /** A line is one part without a semicolon, or a part, a semicolon and another line. */
  lemma SplitOnce(s: Bytes) returns (text: Bytes, rest: Bytes, more: bool)
    requires s != []
    ensures SEMICOLON !in text
    ensures !more ==> s == text && Split(s) == [text]
    ensures more ==> s == text + [SEMICOLON] + rest && |rest| < |s| && Split(s) == [text] + Split(rest)
  {
    var n := FindSemicolon(s);
    FirstPart(s);
    text, more := s[..n], n < |s|;
    rest := if more then s[n + 1..] else [];
    if more { assert s == text + [SEMICOLON] + rest; }
  }

  /** Decoding the first of some parts, and the lengths of what results. */
  lemma DecodeFirst(text: Bytes, rest: seq<Bytes>)
    requires !DecodeAll([text] + rest).1
    ensures Unescape(text).Some? && !DecodeAll(rest).1
    ensures TotalLength(DecodeAll([text] + rest).0) == |Unescape(text).value| + TotalLength(DecodeAll(rest).0)
  {
    hide Unescape;
    assert ([text] + rest)[1..] == rest;
    if Unescape(text).Some? {
      var strings := DecodeAll(rest).0;
      assert ([Unescape(text).value] + strings)[1..] == strings;
    }
  }

  /** If all parts of a line are well-formed, so is the line, and it stands for the strings and the semicolons between. */
  lemma {:induction false} PartsLength(s: Bytes)
    requires !DecodeAll(Split(s)).1
    ensures Unescape(s).Some? && |Unescape(s).value| == TotalLength(DecodeAll(Split(s)).0) + Semicolons(s)
    decreases |s|
  {
    if s != [] {
      hide Split, Unescape, DecodeAll;
      var text, rest, more := SplitOnce(s);
      NoSemicolons(text);
      if more {
        DecodeFirst(text, Split(rest));
        PartsLength(rest);
        UnescapeTwo(text, rest);
        SemicolonsAppend(text + [SEMICOLON], rest);
        SemicolonsAppend(text, [SEMICOLON]);
        assert [SEMICOLON][1..] == [];
      } else {
        assert [text] + [] == [text];
        DecodeFirst(text, []);
        assert TotalLength(DecodeAll([]).0) == 0 by { NoTexts(); }
      }
    }
  }

  lemma NoTexts()
    ensures DecodeAll([]) == ([], false)
  {
  }

  /** The first part ends before a semicolon or at the end, and has none. */
  lemma {:induction false} FirstPart(s: Bytes)
    ensures var n := FindSemicolon(s); SEMICOLON !in s[..n] && (n < |s| ==> s[n] == SEMICOLON)
  {
    if s != [] && s[0] != SEMICOLON {
      FirstPart(s[1..]);
      var n := FindSemicolon(s[1..]);
      assert s[..n + 1] == [s[0]] + s[1..][..n];
    }
  }

  lemma {:induction false} JoinLength(texts: seq<Bytes>)
    requires texts != [] && forall t :: t in texts ==> Unescape(t).Some?
    ensures Unescape(Join(texts)).Some?
    ensures |Unescape(Join(texts)).value| == TotalLength(Strings(texts)) + |texts| - 1
    ensures Semicolons(Join(texts)) >= |texts| - 1
    ensures Semicolons(Join(texts)) == |texts| - 1 ==> forall t :: t in texts ==> SEMICOLON !in t
  {
    hide Unescape;
    var text := texts[0];
    assert text in texts;
    NoSemicolons(text);
    assert texts == [text] + texts[1..];
    assert Strings(texts)[1..] == Strings(texts[1..]);
    if |texts| > 1 {
      JoinLength(texts[1..]);
      UnescapeTwo(text, Join(texts[1..]));
      SemicolonsAppend(text + [SEMICOLON], Join(texts[1..]));
      SemicolonsAppend(text, [SEMICOLON]);
      assert [SEMICOLON][1..] == [];
    }
  }

  lemma {:induction false} DecodeStrings(texts: seq<Bytes>)
    requires forall t :: t in texts ==> Unescape(t).Some?
    ensures DecodeAll(texts) == (Strings(texts), false) && |Strings(texts)| == |texts|
  {
    hide Unescape;
    if texts != [] {
      assert texts[0] in texts;
      DecodeStrings(texts[1..]);
    }
  }

  /**
   * The documentation has a semicolon inside a prefix escaped by a backslash.  The line is split before escapes are
   * read: well-formed texts, joined by semicolons, are parsed to their strings exactly if none of them has a
   * semicolon, escaped or not, and the last one, if any, is not empty.
   */
  lemma JoinedTextsIff(texts: seq<Bytes>)
    requires forall t :: t in texts ==> Unescape(t).Some?
    ensures DecodeAll(Split(Join(texts))) == (Strings(texts), false) <==>
              (forall t :: t in texts ==> SEMICOLON !in t) && (texts == [] || texts[|texts| - 1] != [])
  {
    hide Split, Unescape, Join, Semicolons;
    DecodeStrings(texts);
    if DecodeAll(Split(Join(texts))) == (Strings(texts), false) {
      if texts != [] {
        PartsLength(Join(texts));
        JoinLength(texts);
        LastIsNotEmpty(texts);
      }
    } else if forall t :: t in texts ==> SEMICOLON !in t {
      SplitJoin(texts);
    }
  }

  /** An empty last text is lost. */
  lemma LastIsNotEmpty(texts: seq<Bytes>)
    requires texts != [] && (forall t :: t in texts ==> Unescape(t).Some? && SEMICOLON !in t)
    ensures texts[|texts| - 1] == [] ==> DecodeAll(Split(Join(texts))) != (Strings(texts), false)
  {
    hide Split, Unescape, Join;
    SplitJoin(texts);
    DecodeStrings(texts);
    DecodeStrings(texts[..|texts| - 1]);
  }

  /** A semicolon escaped in the first prefix makes the parser fail, whatever follows. */
  lemma EscapedSemicolonFails(text: Bytes, rest: Bytes)
    requires Unescape(text).Some? && SEMICOLON !in text
    ensures DecodeAll(Split(text + [BACKSLASH, SEMICOLON] + rest)) == ([], true)
  {
    hide Split;
    var first := text + [BACKSLASH];
    assert text + [BACKSLASH, SEMICOLON] + rest == first + [SEMICOLON] + rest;
    SplitFirst(first, rest);
    UnescapeJoined(text, [BACKSLASH]);
    DecodeNext([], first, Split(rest));
  }
}
