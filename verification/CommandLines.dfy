/** Splitting a line into groups of tokens, with the line edited in place and tokens given as views of it. */
module CommandLines {

  import opened ByteStrings
  import opened Options
  import opened Escapes
  import HexStrings

  /** The position that a search returns when it finds nothing. */
  const NPOS: nat := 0xffff_ffff_ffff_ffff

  /** A part of the line. */
  datatype View = View(offset: nat, length: int)

  /** What a view shows; one that does not lie inside the line is wild. */
  datatype Token = Text(bytes: Bytes) | Wild

  function Read(line: Bytes, v: View): Token {
    if v.length >= 0 && v.offset + v.length <= |line| then Text(line[v.offset..v.offset + v.length]) else Wild
  }

  function ReadViews(line: Bytes, views: seq<View>): seq<Token> {
    seq(|views|, k requires 0 <= k < |views| => Read(line, views[k]))
  }

  function ReadGroups(line: Bytes, groups: seq<seq<View>>): seq<seq<Token>> {
    seq(|groups|, k requires 0 <= k < |groups| => ReadViews(line, groups[k]))
  }

  // ---------- Tokens as values ----------

  datatype Parsed = Parsed(groups: seq<seq<Token>>, err: bool, partial: bool)

  function SkipSpaces(s: Bytes): (r: Bytes)
    ensures |r| <= |s|
  {
    if s != [] && s[0] == SPACE then SkipSpaces(s[1..]) else s
  }

  /** The result when the text is used up; with `push` the last token is added. */
  function Finish(push: bool, last: Token, quoted: bool, buf: seq<Token>, ret: seq<seq<Token>>): Parsed {
    Parsed(ret + [if push then buf + [last] else buf], false, quoted)
  }

  /** What the rest of a text is split into, after the part `cur` of a token. */
  function ParseFrom(cur: Bytes, rest: Bytes, quoted: bool, force: bool, buf: seq<Token>, ret: seq<seq<Token>>): Parsed
    decreases |rest|, 0
  {
    if rest == [] then Finish(cur != [] || force, Text(cur), quoted, buf, ret)
    else if rest[0] == SEMICOLON && !quoted then
      ParseToken(rest[1..], force, [], ret + [if cur != [] then buf + [Text(cur)] else buf])
    else if rest[0] == QUOTE then ParseFrom(cur, rest[1..], !quoted, force || !quoted, buf, ret)
    else if rest[0] == SPACE && !quoted then ParseToken(rest[1..], false, buf + [Text(cur)], ret)
    else if rest[0] == BACKSLASH then
      match Escape(rest)
      case None => Parsed(ret + [buf], true, false)
      case Some((b, n)) => ParseFrom(cur + [b], rest[n..], quoted, force, buf, ret)
    else ParseFrom(cur + [rest[0]], rest[1..], quoted, force, buf, ret)
  }

  /** The same at the start of a token: with nothing left but spaces, a token that is still forced is wild. */
  function ParseToken(rest: Bytes, force: bool, buf: seq<Token>, ret: seq<seq<Token>>): Parsed
    decreases |rest|, 1
  {
    var text := SkipSpaces(rest);
    if text == [] then Finish(force, Wild, false, buf, ret) else ParseFrom([], text, false, force, buf, ret)
  }

  function Parse(text: Bytes): Parsed {
    ParseToken(text, false, [], [])
  }

  // ---------- The line after the edits ----------

  function FindNotSpace(line: Bytes, p: nat): (r: nat)
    requires p <= |line|
    ensures r == NPOS || p <= r < |line|
    decreases |line| - p
  {
    if p == |line| then NPOS
    else if line[p] != SPACE then p
    else FindNotSpace(line, p + 1)
  }

  /** A malformed sequence of four characters leaves a zero behind it. */
  function Marked(rest: Bytes): (r: Bytes)
    requires |rest| >= 2
    ensures |r| == |rest|
  {
    if rest[1] == LETTER_X && |rest| > 4 then rest[4 := 0] else rest
  }

  /** What becomes of a text: quotes are dropped and escape sequences replaced, up to the first malformed one. */
  function Edited(text: Bytes): Bytes {
    if text == [] then []
    else if text[0] == QUOTE then Edited(text[1..])
    else if text[0] != BACKSLASH then [text[0]] + Edited(text[1..])
    else match Escape(text)
      case None => if |text| < 2 then text else Marked(text)
      case Some((b, n)) => [b] + Edited(text[n..])
  }

  /** The line that results when the edits have come to `at`, or to the end. */
  ghost function EditedFrom(line: Bytes, at: nat): Bytes {
    if at >= |line| then line else line[..at] + Edited(line[at..])
  }

  lemma EditedStart(text: Bytes)
    ensures EditedFrom(text, 0) == Edited(text)
  {
    assert text[..0] == [] && text[0..] == text && [] + Edited(text) == Edited(text);
  }

  lemma EditedEnd(line: Bytes, at: nat)
    requires at >= |line|
    ensures EditedFrom(line, at) == line
  {
  }

  lemma EditQuote(line: Bytes, i: nat)
    requires i < |line| && line[i] == QUOTE
    ensures EditedFrom(line[..i] + line[i + 1..], i) == EditedFrom(line, i)
  {
    var line' := line[..i] + line[i + 1..];
    assert line'[..i] == line[..i] && line'[i..] == line[i..][1..];
    if i == |line'| { assert line' + [] == line' && Edited([]) == []; }
  }

  lemma EditByte(line: Bytes, i: nat, b: Byte, n: nat)
    requires i < |line| && line[i] != QUOTE
    requires if line[i] == BACKSLASH then Escape(line[i..]) == Some((b, n)) else b == line[i] && n == 1
    ensures i + n <= |line| && EditedFrom(line[..i] + [b] + line[i + n..], i + 1) == EditedFrom(line, i)
  {
    var rest := line[i + n..];
    var line' := line[..i] + [b] + rest;
    assert line[i..][n..] == rest;
    assert Edited(line[i..]) == [b] + Edited(rest);
    assert line'[..i + 1] == line[..i] + [b] && line'[i + 1..] == rest;
    assert line[..i] + ([b] + Edited(rest)) == line[..i] + [b] + Edited(rest);
    if rest == [] { assert Edited(rest) == []; }
  }

  /** Nothing is edited in spaces. */
  lemma {:induction false} EditSpaces(line: Bytes, p: nat)
    requires p <= |line| < NPOS
    ensures EditedFrom(line, FindNotSpace(line, p)) == EditedFrom(line, p)
    decreases |line| - p
  {
    if p < |line| && line[p] == SPACE {
      EditPlain(line, p);
      EditSpaces(line, p + 1);
    }
  }

  /** A byte that is neither a quote nor a backslash stays. */
  lemma EditPlain(line: Bytes, i: nat)
    requires i < |line| && line[i] != QUOTE && line[i] != BACKSLASH
    ensures EditedFrom(line, i + 1) == EditedFrom(line, i)
  {
    EditByte(line, i, line[i], 1);
    assert line[..i] + [line[i]] + line[i + 1..] == line;
  }

  lemma EditError(line: Bytes, i: nat)
    requires i < |line| && line[i] == BACKSLASH && Escape(line[i..]).None?
    ensures EditedFrom(line, i) == if i + 4 < |line| && line[i + 1] == LETTER_X then line[i + 4 := 0] else line
  {
    var rest := line[i..];
    assert line[..i] + rest == line;
    if |rest| >= 2 && i + 4 < |line| && line[i + 1] == LETTER_X {
      assert line[..i] + rest[4 := 0] == line[i + 4 := 0];
    }
  }

  // ---------- The parser ----------

  lemma {:induction false} FindSkips(line: Bytes, p: nat)
    requires p <= |line| < NPOS
    ensures SkipSpaces(line[p..]) == if FindNotSpace(line, p) == NPOS then [] else line[FindNotSpace(line, p)..]
    decreases |line| - p
  {
    if p < |line| {
      assert line[p..][1..] == line[p + 1..];
      if line[p] == SPACE { FindSkips(line, p + 1); }
    }
  }

  ghost predicate EndBefore(views: seq<View>, i: nat) {
    forall v :: v in views ==> v.length >= 0 && v.offset + v.length <= i
  }

  ghost predicate AllEndBefore(groups: seq<seq<View>>, i: nat) {
    forall g :: g in groups ==> EndBefore(g, i)
  }

  lemma EditKeepsRead(line: Bytes, line': Bytes, i: nat, views: seq<View>)
    requires i <= |line| && i <= |line'| && line[..i] == line'[..i] && EndBefore(views, i)
    ensures ReadViews(line, views) == ReadViews(line', views)
  {
    forall k | 0 <= k < |views|
      ensures Read(line, views[k]) == Read(line', views[k])
    {
      var v := views[k];
      assert v in views;
      assert line[v.offset..v.offset + v.length] == line[..i][v.offset..v.offset + v.length];
      assert line'[v.offset..v.offset + v.length] == line'[..i][v.offset..v.offset + v.length];
    }
  }

  /** An edit at or after `i` does not change what views that end before it show. */
  lemma EditKeepsViews(line: Bytes, line': Bytes, i: nat, buf: seq<View>, ret: seq<seq<View>>)
    requires i <= |line| && i <= |line'| && line[..i] == line'[..i]
    requires EndBefore(buf, i) && AllEndBefore(ret, i)
    ensures ReadViews(line, buf) == ReadViews(line', buf)
    ensures ReadGroups(line, ret) == ReadGroups(line', ret)
  {
    hide ReadViews, EndBefore;
    EditKeepsRead(line, line', i, buf);
    forall k | 0 <= k < |ret|
      ensures ReadViews(line, ret[k]) == ReadViews(line', ret[k])
    {
      assert ret[k] in ret;
      EditKeepsRead(line, line', i, ret[k]);
    }
  }

  /** Views that end before `i` end before any later place, and so does one that ends at `i`. */
  lemma EndsLater(buf: seq<View>, ret: seq<seq<View>>, offset: nat, i: nat, j: nat)
    requires EndBefore(buf, i) && AllEndBefore(ret, i) && offset <= i <= j
    ensures EndBefore(buf, j) && EndBefore(buf + [View(offset, i - offset)], j) && EndBefore([], j)
    ensures AllEndBefore(ret, j) && AllEndBefore(ret + [buf], j) && AllEndBefore(ret + [buf + [View(offset, i - offset)]], j)
  {
    assert forall g :: g in ret ==> EndBefore(g, i) && EndBefore(g, j);
  }

  /** The state of the parser, as what remains to be done. */
  ghost function Remaining(line: Bytes, i: nat, offset: nat, quoted: bool, force: bool, buf: seq<View>, ret: seq<seq<View>>): Parsed
    requires i == NPOS || offset <= i <= |line|
  {
    if i == NPOS then Finish(force, Wild, quoted, ReadViews(line, buf), ReadGroups(line, ret))
    else ParseFrom(line[offset..i], line[i..], quoted, force, ReadViews(line, buf), ReadGroups(line, ret))
  }

  /** At the start of a token, after spaces. */
  lemma AtStart(line: Bytes, p: nat, force: bool, buf: seq<View>, ret: seq<seq<View>>)
    requires p <= |line| < NPOS
    ensures var i := FindNotSpace(line, p);
            Remaining(line, i, i, false, force, buf, ret) == ParseToken(line[p..], force, ReadViews(line, buf), ReadGroups(line, ret))
  {
    FindSkips(line, p);
    var i := FindNotSpace(line, p);
    if i != NPOS {
      assert line[i..i] == [];
    }
  }

  lemma ReadOneMore(line: Bytes, views: seq<View>, offset: nat, i: nat)
    requires offset <= i <= |line|
    ensures ReadViews(line, views + [View(offset, i - offset)]) == ReadViews(line, views) + [Text(line[offset..i])]
  {
  }

  lemma ReadGroupMore(line: Bytes, groups: seq<seq<View>>, g: seq<View>)
    ensures ReadGroups(line, groups + [g]) == ReadGroups(line, groups) + [ReadViews(line, g)]
  {
  }

  /** A quote at `i` is erased. */
  lemma QuoteStep(line: Bytes, i: nat, offset: nat, quoted: bool, force: bool, buf: seq<View>, ret: seq<seq<View>>)
    requires offset <= i < |line| < NPOS && line[i] == QUOTE && EndBefore(buf, i) && AllEndBefore(ret, i)
    ensures Remaining(line, i, offset, quoted, force, buf, ret) ==
              Remaining(line[..i] + line[i + 1..], i, offset, !quoted, force || !quoted, buf, ret)
  {
    hide ReadViews, ReadGroups, EndBefore, AllEndBefore;
    var line' := line[..i] + line[i + 1..];
    assert line'[..i] == line[..i];
    EditKeepsViews(line, line', i, buf, ret);
    assert line'[offset..i] == line[offset..i] && line'[i..] == line[i..][1..];
  }

  /** The first `n` characters at `i` are replaced by the byte they stand for, which becomes part of the token. */
  lemma ByteStep(line: Bytes, i: nat, offset: nat, quoted: bool, force: bool, buf: seq<View>, ret: seq<seq<View>>, b: Byte, n: nat)
    requires offset <= i < |line| < NPOS && EndBefore(buf, i) && AllEndBefore(ret, i)
    requires line[i] != QUOTE && (!quoted ==> line[i] != SEMICOLON && line[i] != SPACE)
    requires if line[i] == BACKSLASH then Escape(line[i..]) == Some((b, n)) else b == line[i] && n == 1
    ensures i + n <= |line|
    ensures Remaining(line, i, offset, quoted, force, buf, ret) ==
              Remaining(line[..i] + [b] + line[i + n..], i + 1, offset, quoted, force, buf, ret)
  {
    hide ReadViews, ReadGroups, EndBefore, AllEndBefore;
    var line' := line[..i] + [b] + line[i + n..];
    assert line'[..i] == line[..i];
    EditKeepsViews(line, line', i, buf, ret);
    assert line'[offset..i + 1] == line[offset..i] + [b] && line'[i + 1..] == line[i..][n..];
  }

  lemma StartSkips(rest: Bytes, force: bool, buf: seq<Token>, ret: seq<seq<Token>>)
    requires rest != [] && rest[0] == SPACE
    ensures ParseToken(rest, force, buf, ret) == ParseToken(rest[1..], force, buf, ret)
  {
  }

  lemma SpaceStep(line: Bytes, i: nat, offset: nat, force: bool, buf: seq<View>, ret: seq<seq<View>>)
    requires offset <= i < |line| < NPOS && line[i] == SPACE
    ensures var next := FindNotSpace(line, i);
            next > i && Remaining(line, i, offset, false, force, buf, ret) ==
              Remaining(line, next, next, false, false, buf + [View(offset, i - offset)], ret)
  {
    hide ReadViews, ReadGroups;
    AtStart(line, i, false, buf + [View(offset, i - offset)], ret);
    ReadOneMore(line, buf, offset, i);
    StartSkips(line[i..], false, ReadViews(line, buf + [View(offset, i - offset)]), ReadGroups(line, ret));
  }

  lemma SemicolonStep(line: Bytes, i: nat, offset: nat, force: bool, buf: seq<View>, ret: seq<seq<View>>)
    requires offset <= i < |line| < NPOS && line[i] == SEMICOLON
    ensures var next := FindNotSpace(line, i + 1);
            var buf' := if i > offset then buf + [View(offset, i - offset)] else buf;
            Remaining(line, i, offset, false, force, buf, ret) == Remaining(line, next, next, false, force, [], ret + [buf'])
  {
    hide ReadViews, ReadGroups;
    var buf' := if i > offset then buf + [View(offset, i - offset)] else buf;
    AtStart(line, i + 1, force, [], ret + [buf']);
    ReadGroupMore(line, ret, buf');
    ReadOneMore(line, buf, offset, i);
    assert ReadViews(line, []) == [] by { ReadNothing(line); }
    assert line[i..][1..] == line[i + 1..];
  }

  /** A malformed sequence at `i` ends the parser; a zero written behind it does not reach a token. */
  lemma ErrorStep(line: Bytes, line': Bytes, i: nat, offset: nat, quoted: bool, force: bool, buf: seq<View>, ret: seq<seq<View>>)
    requires offset <= i < |line| < NPOS && line[i] == BACKSLASH && Escape(line[i..]).None?
    requires EndBefore(buf, i) && AllEndBefore(ret, i) && i <= |line'| && line'[..i] == line[..i]
    ensures Remaining(line, i, offset, quoted, force, buf, ret) == Parsed(ReadGroups(line', ret + [buf]), true, false)
  {
    hide ReadViews, ReadGroups, EndBefore, AllEndBefore;
    EditKeepsViews(line, line', i, buf, ret);
    ReadGroupMore(line', ret, buf);
  }

  /** The last token, which ends before `i`. */
  lemma LastStep(line: Bytes, i: nat, offset: nat, quoted: bool, force: bool, buf: seq<View>, ret: seq<seq<View>>)
    requires |line| + 1 < NPOS && (i == |line| >= offset || (i + 1 == offset == NPOS))
    ensures var buf' := if i > offset || force then buf + [View(offset, i - offset)] else buf;
            Remaining(line, if i == |line| then i else NPOS, offset, quoted, force, buf, ret) ==
              Parsed(ReadGroups(line, ret + [buf']), false, quoted)
  {
    hide ReadViews, ReadGroups;
    var buf' := if i > offset || force then buf + [View(offset, i - offset)] else buf;
    ReadGroupMore(line, ret, buf');
    if i == |line| {
      assert line[i..] == [];
      ReadOneMore(line, buf, offset, i);
    } else {
      ReadWild(line, buf);
    }
  }

  lemma ReadWild(line: Bytes, views: seq<View>)
    ensures ReadViews(line, views + [View(NPOS, -1)]) == ReadViews(line, views) + [Wild]
  {
  }

  lemma ReadNothing(line: Bytes)
    ensures ReadViews(line, []) == [] && ReadGroups(line, []) == []
  {
  }

  lemma NoViews()
    ensures EndBefore([], 0) && AllEndBefore([], 0)
  {
  }

  lemma AtBeginning(text: Bytes)
    requires |text| < NPOS
    ensures var i := FindNotSpace(text, 0); Remaining(text, i, i, false, false, [], []) == Parse(text)
  {
    AtStart(text, 0, false, [], []);
    ReadNothing(text);
    assert text[0..] == text;
  }

  /** The tokens seen through the views at the end are those of the text: no edit reaches a token already found. */
  method ParseLine(text: Bytes) returns (line: Bytes, ret: seq<seq<View>>, err: bool, partial: bool)
    requires |text| + 1 < NPOS
    ensures Parsed(ReadGroups(line, ret), err, partial) == Parse(text)
    ensures line == Edited(text)
  {
    hide ReadViews, ReadGroups, Remaining, Parse, Escape, FindNotSpace, EndBefore, AllEndBefore, Edited, EditedFrom;
    line, ret, err, partial := text, [], false, false;
    var quoted, force := false, false;
    var buf: seq<View> := [];
    var i: nat := FindNotSpace(line, 0);
    var offset: nat := i;
    AtBeginning(line);
    EditedStart(line);
    EditSpaces(line, 0);
    assert EndBefore(buf, 0) && AllEndBefore(ret, 0) by { NoViews(); }
    EndsLater(buf, ret, 0, 0, if i == NPOS then |line| else i);
    ghost var at: nat := i;
    while i <= |line|
      invariant |line| + 1 < NPOS
      invariant i == NPOS || i <= |line| + 1
      invariant if i == NPOS then at == NPOS && offset == NPOS && !quoted
                else at == (if i <= |line| then i else |line|) && offset <= at
      invariant EndBefore(buf, if at == NPOS then |line| else at)
      invariant AllEndBefore(ret, if at == NPOS then |line| else at)
      invariant Remaining(line, at, offset, quoted, force, buf, ret) == Parse(text)
      invariant EditedFrom(line, at) == Edited(text)
      decreases |line| - i
    {
      if i == |line| {
        i := i + 1;
      } else if line[i] == SEMICOLON && !quoted {
        var next := FindNotSpace(line, i + 1);
        SemicolonStep(line, i, offset, force, buf, ret);
        EditPlain(line, i);
        EditSpaces(line, i + 1);
        EndsLater(buf, ret, offset, i, if next == NPOS then |line| else next);
        if i > offset {
          buf := buf + [View(offset, i - offset)];
        }
        ret := ret + [buf];
        buf := [];
        offset, i, at := next, next, next;
      } else if line[i] == QUOTE {
        QuoteStep(line, i, offset, quoted, force, buf, ret);
        EditQuote(line, i);
        quoted := !quoted;
        line := line[..i] + line[i + 1..];
        if quoted {
          force := true;
        }
      } else if line[i] == SPACE && !quoted {
        var next := FindNotSpace(line, i);
        SpaceStep(line, i, offset, force, buf, ret);
        EditSpaces(line, i);
        EndsLater(buf, ret, offset, i, if next == NPOS then |line| else next);
        buf := buf + [View(offset, i - offset)];
        offset, i, at := next, next, next;
        force := false;
      } else if line[i] == BACKSLASH {
        var escape := Escape(line[i..]);
        if escape == None {
          EditError(line, i);
          ghost var before := line;
          if i + 4 < |line| && line[i + 1] == LETTER_X {
            line := line[i + 4 := 0]; // the end of the number, for the conversion
          }
          ErrorStep(before, line, i, offset, quoted, force, buf, ret);
          err := true;
          ret := ret + [buf];
          return;
        }
        var (b, n) := escape.value;
        EndsLater(buf, ret, offset, i, i + 1);
        ByteStep(line, i, offset, quoted, force, buf, ret, b, n);
        EditByte(line, i, b, n);
        line := line[..i] + [b] + line[i + n..];
        i := i + 1;
        at := i;
      } else {
        EndsLater(buf, ret, offset, i, i + 1);
        ByteStep(line, i, offset, quoted, force, buf, ret, line[i], 1);
        EditPlain(line, i);
        assert line == line[..i] + [line[i]] + line[i + 1..];
        i := i + 1;
        at := i;
      }
    }
    i := i - 1;
    LastStep(line, i, offset, quoted, force, buf, ret);
    assert EditedFrom(line, at) == line by { EditedEnd(line, at); }
    if i > offset || force {
      buf := buf + [View(offset, i - offset)];
    }
    ret := ret + [buf];
    if quoted {
      partial := true;
    }
  }

  // ---------- Printed tokens ----------

  /** Tokens printed as escape sequences and separated by spaces. */
  function PrintTokens(tokens: seq<Bytes>): Bytes {
    if tokens == [] then []
    else if |tokens| == 1 then ToHex(tokens[0])
    else ToHex(tokens[0]) + [SPACE] + PrintTokens(tokens[1..])
  }

  /** Groups of tokens separated by semicolons. */
  function PrintGroups(groups: seq<seq<Bytes>>): Bytes {
    if groups == [] then []
    else if |groups| == 1 then PrintTokens(groups[0])
    else PrintTokens(groups[0]) + [SEMICOLON] + PrintGroups(groups[1..])
  }

  function NonEmpty(tokens: seq<Bytes>): seq<Token> {
    if tokens == [] then []
    else (if tokens[0] == [] then [] else [Text(tokens[0])]) + NonEmpty(tokens[1..])
  }

  function NonEmptyTokens(groups: seq<seq<Bytes>>): seq<seq<Token>> {
    if groups == [] then [] else [NonEmpty(groups[0])] + NonEmptyTokens(groups[1..])
  }

  predicate AllowedIn(b: Byte, form: Form, quoted: bool) {
    match form
    case Plain => b != BACKSLASH && b != QUOTE && (quoted || (b != SPACE && b != SEMICOLON))
    case _ => StandsFor(form, b)
  }

  /** A byte, written in a way that is allowed for it, becomes part of the current token. */
  lemma ScanByte(cur: Bytes, b: Byte, form: Form, quoted: bool, force: bool, rest: Bytes, buf: seq<Token>, ret: seq<seq<Token>>)
    requires AllowedIn(b, form, quoted)
    ensures ParseFrom(cur, SpellByte(b, form) + rest, quoted, force, buf, ret) == ParseFrom(cur + [b], rest, quoted, force, buf, ret)
  {
    hide Escape;
    var text := SpellByte(b, form) + rest;
    if form.Plain? {
      assert text[1..] == rest;
    } else {
      EscapeOfSpelled(b, form, rest);
    }
  }

  /** A printed token is read back as part of the current one. */
  lemma {:induction false} ScanHex(cur: Bytes, token: Bytes, rest: Bytes, buf: seq<Token>, ret: seq<seq<Token>>)
    ensures ParseFrom(cur, ToHex(token) + rest, false, false, buf, ret) == ParseFrom(cur + token, rest, false, false, buf, ret)
    decreases |token|
  {
    hide ParseFrom;
    if token == [] {
      assert ToHex(token) + rest == rest && cur + token == cur;
    } else {
      var more := ToHex(token[1..]) + rest;
      var form := Hexed(HexDigit(token[0] / 16, false), HexDigit(token[0] % 16, false));
      DigitsStandFor(token[0], false, false);
      assert ToHex(token) + rest == HexByte(token[0]) + more && HexByte(token[0]) == SpellByte(token[0], form);
      ScanByte(cur, token[0], form, false, false, more, buf, ret);
      ScanHex(cur + [token[0]], token[1..], rest, buf, ret);
      assert cur + [token[0]] + token[1..] == cur + token;
    }
  }

  /** A printed token at the start, followed by the end of the text or a separator. */
  lemma StartHex(token: Bytes, rest: Bytes, buf: seq<Token>, ret: seq<seq<Token>>)
    requires token != []
    ensures ParseToken(ToHex(token) + rest, false, buf, ret) == ParseFrom(token, rest, false, false, buf, ret)
  {
    hide ParseFrom;
    var text := ToHex(token) + rest;
    assert text[0] == BACKSLASH;
    assert SkipSpaces(text) == text;
    ScanHex([], token, rest, buf, ret);
    assert [] + token == token;
  }

  /** Where no token is forced, the start of a token at the end or at a semicolon is nothing special. */
  lemma StartPlain(rest: Bytes, buf: seq<Token>, ret: seq<seq<Token>>)
    requires rest == [] || rest[0] == SEMICOLON
    ensures ParseToken(rest, false, buf, ret) == ParseFrom([], rest, false, false, buf, ret)
  {
  }

  /** A token before the end or a semicolon is added to its group. */
  lemma ScanLast(token: Bytes, rest: Bytes, buf: seq<Token>, ret: seq<seq<Token>>)
    requires token != [] && (rest == [] || rest[0] == SEMICOLON)
    ensures ParseFrom(token, rest, false, false, buf, ret) == ParseFrom([], rest, false, false, buf + [Text(token)], ret)
  {
  }

  lemma ScanSpace(token: Bytes, rest: Bytes, buf: seq<Token>, ret: seq<seq<Token>>)
    ensures ParseFrom(token, [SPACE] + rest, false, false, buf, ret) == ParseToken(rest, false, buf + [Text(token)], ret)
  {
    assert ([SPACE] + rest)[1..] == rest;
  }

  lemma {:induction false} StartTokens(tokens: seq<Bytes>, rest: Bytes, buf: seq<Token>, ret: seq<seq<Token>>)
    requires rest == [] || rest[0] == SEMICOLON
    ensures ParseToken(PrintTokens(tokens) + rest, false, buf, ret) == ParseFrom([], rest, false, false, buf + NonEmpty(tokens), ret)
    decreases |tokens|
  {
    hide ParseFrom, ParseToken;
    if tokens == [] {
      assert PrintTokens(tokens) + rest == rest && buf + NonEmpty(tokens) == buf;
      StartPlain(rest, buf, ret);
    } else {
      var token, more := tokens[0], PrintTokens(tokens[1..]) + rest;
      if |tokens| == 1 {
        assert NonEmpty(tokens) == if token == [] then [] else [Text(token)];
        if token == [] {
          assert PrintTokens(tokens) + rest == rest && buf + NonEmpty(tokens) == buf;
          StartPlain(rest, buf, ret);
        } else {
          StartHex(token, rest, buf, ret);
          ScanLast(token, rest, buf, ret);
        }
      } else {
        assert PrintTokens(tokens) + rest == ToHex(token) + ([SPACE] + more);
        if token == [] {
          assert ToHex(token) + ([SPACE] + more) == [SPACE] + more && ([SPACE] + more)[1..] == more;
          StartSkips([SPACE] + more, false, buf, ret);
          StartTokens(tokens[1..], rest, buf, ret);
          assert NonEmpty(tokens) == NonEmpty(tokens[1..]);
        } else {
          StartHex(token, [SPACE] + more, buf, ret);
          ScanSpace(token, more, buf, ret);
          StartTokens(tokens[1..], rest, buf + [Text(token)], ret);
          assert buf + [Text(token)] + NonEmpty(tokens[1..]) == buf + NonEmpty(tokens);
        }
      }
    }
  }

  lemma {:induction false} StartGroups(groups: seq<seq<Bytes>>, ret: seq<seq<Token>>)
    requires groups != []
    ensures ParseToken(PrintGroups(groups), false, [], ret) == Parsed(ret + NonEmptyTokens(groups), false, false)
    decreases |groups|
  {
    hide ParseToken, NonEmpty, PrintTokens;
    var group := NonEmpty(groups[0]);
    assert [] + group == group;
    if |groups| == 1 {
      StartTokens(groups[0], [], [], ret);
      assert PrintTokens(groups[0]) + [] == PrintTokens(groups[0]);
      assert NonEmptyTokens(groups) == [group];
    } else {
      var more := PrintGroups(groups[1..]);
      assert PrintGroups(groups) == PrintTokens(groups[0]) + ([SEMICOLON] + more);
      StartTokens(groups[0], [SEMICOLON] + more, [], ret);
      assert ([SEMICOLON] + more)[1..] == more;
      StartGroups(groups[1..], ret + [group]);
      assert ret + [group] + NonEmptyTokens(groups[1..]) == ret + NonEmptyTokens(groups);
    }
  }

  function Texts(tokens: seq<Bytes>): seq<Token> {
    seq(|tokens|, k requires 0 <= k < |tokens| => Text(tokens[k]))
  }

  function AllTexts(groups: seq<seq<Bytes>>): seq<seq<Token>> {
    seq(|groups|, k requires 0 <= k < |groups| => Texts(groups[k]))
  }

  lemma {:induction false} NonEmptyIff(tokens: seq<Bytes>)
    ensures |NonEmpty(tokens)| <= |tokens|
    ensures NonEmpty(tokens) == Texts(tokens) <==> [] !in tokens
  {
    if tokens != [] {
      NonEmptyIff(tokens[1..]);
      assert Texts(tokens)[1..] == Texts(tokens[1..]);
      if tokens[0] != [] {
        assert NonEmpty(tokens)[1..] == NonEmpty(tokens[1..]);
        assert Texts(tokens) == [Text(tokens[0])] + Texts(tokens[1..]);
      } else {
        assert |NonEmpty(tokens)| < |Texts(tokens)|;
      }
    }
  }

  lemma NoGroups()
    ensures NonEmptyTokens([]) == AllTexts([])
  {
  }

  lemma NonEmptyFirst(groups: seq<seq<Bytes>>)
    requires groups != []
    ensures NonEmptyTokens(groups) == [NonEmpty(groups[0])] + NonEmptyTokens(groups[1..])
  {
    hide NonEmpty;
  }

  lemma AllTextsFirst(groups: seq<seq<Bytes>>)
    requires groups != []
    ensures AllTexts(groups) == [Texts(groups[0])] + AllTexts(groups[1..])
  {
    hide Texts;
    forall k | 1 <= k < |groups| ensures AllTexts(groups)[k] == AllTexts(groups[1..])[k - 1] {
      assert groups[1..][k - 1] == groups[k];
    }
  }

  lemma SameFirst(a: seq<Token>, more: seq<seq<Token>>, b: seq<Token>, rest: seq<seq<Token>>)
    ensures [a] + more == [b] + rest <==> a == b && more == rest
  {
    if [a] + more == [b] + rest {
      assert ([a] + more)[0] == ([b] + rest)[0] && ([a] + more)[1..] == more && ([b] + rest)[1..] == rest;
    }
  }

  lemma {:induction false} NonEmptyTokensIff(groups: seq<seq<Bytes>>)
    ensures NonEmptyTokens(groups) == AllTexts(groups) <==> forall g :: g in groups ==> [] !in g
  {
    hide NonEmpty, Texts, NonEmptyTokens, AllTexts;
    if groups == [] {
      NoGroups();
    } else {
      NonEmptyFirst(groups);
      AllTextsFirst(groups);
      SameFirst(NonEmpty(groups[0]), NonEmptyTokens(groups[1..]), Texts(groups[0]), AllTexts(groups[1..]));
      NonEmptyIff(groups[0]);
      NonEmptyTokensIff(groups[1..]);
      assert groups == [groups[0]] + groups[1..];
    }
  }

  /**
   * Groups of tokens, printed as escape sequences with spaces and semicolons between them, are parsed to the same
   * groups exactly if there is a group and no token is empty; empty tokens are lost.
   */
  lemma PrintParseIff(groups: seq<seq<Bytes>>)
    ensures groups != [] ==> Parse(PrintGroups(groups)) == Parsed(NonEmptyTokens(groups), false, false)
    ensures Parse(PrintGroups(groups)) == Parsed(AllTexts(groups), false, false) <==>
              groups != [] && forall g :: g in groups ==> [] !in g
  {
    hide NonEmptyTokens;
    NonEmptyTokensIff(groups);
    if groups != [] {
      StartGroups(groups, []);
      assert [] + NonEmptyTokens(groups) == NonEmptyTokens(groups);
    } else {
      assert |Parse([]).groups| == 1;
    }
  }

  // ---------- Quoted tokens ----------

  lemma {:induction false} ScanQuoted(cur: Bytes, s: Bytes, rest: Bytes, buf: seq<Token>, ret: seq<seq<Token>>)
    requires QUOTE !in s && BACKSLASH !in s
    ensures ParseFrom(cur, s + rest, true, true, buf, ret) == ParseFrom(cur + s, rest, true, true, buf, ret)
    decreases |s|
  {
    if s == [] {
      assert s + rest == rest && cur + s == cur;
    } else {
      assert (s + rest)[1..] == s[1..] + rest;
      ScanQuoted(cur + [s[0]], s[1..], rest, buf, ret);
      assert cur + [s[0]] + s[1..] == cur + s;
    }
  }

  /**
   * Between quotes everything but a quote or a backslash is part of one token, also spaces, semicolons or nothing at
   * all.  Without the second quote the token is the same, and the result partial.
   */
  lemma QuotedToken(s: Bytes)
    requires QUOTE !in s && BACKSLASH !in s
    ensures Parse([QUOTE] + s + [QUOTE]) == Parsed([[Text(s)]], false, false)
    ensures Parse([QUOTE] + s) == Parsed([[Text(s)]], false, true)
  {
    hide Parse, ParseFrom;
    assert [QUOTE] + s + [QUOTE] == [QUOTE] + (s + [QUOTE]) && [QUOTE] + s == [QUOTE] + (s + []);
    OpenQuote(s + [QUOTE]);
    OpenQuote(s + []);
    ScanQuoted([], s, [QUOTE], [], []);
    ScanQuoted([], s, [], [], []);
    assert [] + s == s;
    CloseQuote(s);
  }

  lemma OpenQuote(rest: Bytes)
    ensures Parse([QUOTE] + rest) == ParseFrom([], rest, true, true, [], [])
  {
    var text := [QUOTE] + rest;
    assert SkipSpaces(text) == text && text[1..] == rest;
    assert ParseFrom([], text, false, false, [], []) == ParseFrom([], rest, true, true, [], []);
  }

  lemma CloseQuote(s: Bytes)
    ensures ParseFrom(s, [QUOTE], true, true, [], []) == Parsed([[Text(s)]], false, false)
    ensures ParseFrom(s, [], true, true, [], []) == Parsed([[Text(s)]], false, true)
  {
    assert [] + [Text(s)] == [Text(s)];
    assert [] + [[Text(s)]] == [[Text(s)]];
    assert [QUOTE][1..] == [];
    assert ParseFrom(s, [], false, true, [], []) == Parsed([[Text(s)]], false, false);
  }

  // ---------- Lines as users write them ----------

  /** A part of a token, between quotes or not, each byte written in some way. */
  datatype Segment = Segment(quoted: bool, bytes: Bytes, forms: seq<Form>)

  ghost predicate ValidBytes(bytes: Bytes, forms: seq<Form>, quoted: bool) {
    |forms| == |bytes| && forall i :: 0 <= i < |bytes| ==> AllowedIn(bytes[i], forms[i], quoted)
  }

  ghost predicate ValidToken(token: seq<Segment>) {
    forall i :: 0 <= i < |token| ==> ValidBytes(token[i].bytes, token[i].forms, token[i].quoted)
  }

  ghost function SpellSegment(g: Segment): Bytes
    requires ValidBytes(g.bytes, g.forms, g.quoted)
  {
    if g.quoted then [QUOTE] + Spell(g.bytes, g.forms) + [QUOTE] else Spell(g.bytes, g.forms)
  }

  ghost function SpellToken(token: seq<Segment>): Bytes
    requires ValidToken(token)
  {
    if token == [] then [] else SpellSegment(token[0]) + SpellToken(token[1..])
  }

  function TokenBytes(token: seq<Segment>): Bytes {
    if token == [] then [] else token[0].bytes + TokenBytes(token[1..])
  }

  predicate AnyQuoted(token: seq<Segment>) {
    exists i :: 0 <= i < |token| && token[i].quoted
  }

  lemma {:induction false} ScanSpelled(cur: Bytes, s: Bytes, forms: seq<Form>, quoted: bool, force: bool, rest: Bytes,
                                       buf: seq<Token>, ret: seq<seq<Token>>)
    requires ValidBytes(s, forms, quoted)
    ensures ParseFrom(cur, Spell(s, forms) + rest, quoted, force, buf, ret) == ParseFrom(cur + s, rest, quoted, force, buf, ret)
    decreases |s|
  {
    hide ParseFrom, SpellByte;
    if s == [] {
      assert Spell(s, forms) + rest == rest && cur + s == cur;
    } else {
      var more := Spell(s[1..], forms[1..]) + rest;
      assert Spell(s, forms) + rest == SpellByte(s[0], forms[0]) + more;
      ScanByte(cur, s[0], forms[0], quoted, force, more, buf, ret);
      ScanSpelled(cur + [s[0]], s[1..], forms[1..], quoted, force, rest, buf, ret);
      assert cur + [s[0]] + s[1..] == cur + s;
    }
  }

  lemma ScanQuote(cur: Bytes, quoted: bool, force: bool, rest: Bytes, buf: seq<Token>, ret: seq<seq<Token>>)
    ensures ParseFrom(cur, [QUOTE] + rest, quoted, force, buf, ret) == ParseFrom(cur, rest, !quoted, force || !quoted, buf, ret)
  {
    assert ([QUOTE] + rest)[1..] == rest;
  }

  lemma ScanSegment(cur: Bytes, g: Segment, force: bool, rest: Bytes, buf: seq<Token>, ret: seq<seq<Token>>)
    requires ValidBytes(g.bytes, g.forms, g.quoted)
    ensures ParseFrom(cur, SpellSegment(g) + rest, false, force, buf, ret)
         == ParseFrom(cur + g.bytes, rest, false, force || g.quoted, buf, ret)
  {
    hide ParseFrom, Spell;
    var text := Spell(g.bytes, g.forms);
    if g.quoted {
      assert SpellSegment(g) + rest == [QUOTE] + (text + ([QUOTE] + rest));
      ScanQuote(cur, false, force, text + ([QUOTE] + rest), buf, ret);
      ScanSpelled(cur, g.bytes, g.forms, true, true, [QUOTE] + rest, buf, ret);
      ScanQuote(cur + g.bytes, true, true, rest, buf, ret);
    } else {
      ScanSpelled(cur, g.bytes, g.forms, false, force, rest, buf, ret);
    }
  }

  lemma {:induction false} ScanToken(cur: Bytes, token: seq<Segment>, force: bool, rest: Bytes, buf: seq<Token>, ret: seq<seq<Token>>)
    requires ValidToken(token)
    ensures ParseFrom(cur, SpellToken(token) + rest, false, force, buf, ret)
         == ParseFrom(cur + TokenBytes(token), rest, false, force || AnyQuoted(token), buf, ret)
    decreases |token|
  {
    hide ParseFrom, SpellSegment;
    if token == [] {
      assert SpellToken(token) + rest == rest && cur + TokenBytes(token) == cur;
    } else {
      var more := SpellToken(token[1..]) + rest;
      assert SpellToken(token) + rest == SpellSegment(token[0]) + more;
      ScanSegment(cur, token[0], force, more, buf, ret);
      ScanToken(cur + token[0].bytes, token[1..], force || token[0].quoted, rest, buf, ret);
      assert cur + token[0].bytes + TokenBytes(token[1..]) == cur + TokenBytes(token);
      assert AnyQuoted(token) <==> token[0].quoted || AnyQuoted(token[1..]) by {
        assert token == [token[0]] + token[1..];
      }
    }
  }

  /** A token that is not empty does not start with a space. */
  lemma {:induction false} TokenStart(token: seq<Segment>)
    requires ValidToken(token)
    ensures SpellToken(token) != [] ==> SpellToken(token)[0] != SPACE
    ensures TokenBytes(token) != [] || AnyQuoted(token) ==> SpellToken(token) != []
  {
    if token != [] {
      TokenStart(token[1..]);
      assert token == [token[0]] + token[1..];
      var g := token[0];
      if g.bytes != [] {
        assert AllowedIn(g.bytes[0], g.forms[0], g.quoted);
        assert Spell(g.bytes, g.forms)[0] == SpellByte(g.bytes[0], g.forms[0])[0];
      }
    }
  }

  function Spaces(n: nat): Bytes {
    seq(n, i => SPACE)
  }

  lemma {:induction false} StartSpaces(n: nat, rest: Bytes, force: bool, buf: seq<Token>, ret: seq<seq<Token>>)
    ensures ParseToken(Spaces(n) + rest, force, buf, ret) == ParseToken(rest, force, buf, ret)
  {
    hide ParseToken;
    if n == 0 {
      assert Spaces(n) + rest == rest;
    } else {
      assert (Spaces(n) + rest)[1..] == Spaces(n - 1) + rest;
      StartSkips(Spaces(n) + rest, force, buf, ret);
      StartSpaces(n - 1, rest, force, buf, ret);
    }
  }

  lemma StartToken(token: seq<Segment>, rest: Bytes, force: bool, buf: seq<Token>, ret: seq<seq<Token>>)
    requires ValidToken(token) && (TokenBytes(token) != [] || AnyQuoted(token))
    ensures ParseToken(SpellToken(token) + rest, force, buf, ret)
         == ParseFrom(TokenBytes(token), rest, false, force || AnyQuoted(token), buf, ret)
  {
    hide ParseFrom, SpellToken, TokenBytes, AnyQuoted;
    TokenStart(token);
    var text := SpellToken(token) + rest;
    assert SkipSpaces(text) == text;
    ScanToken([], token, force, rest, buf, ret);
    assert [] + TokenBytes(token) == TokenBytes(token);
  }

  /** A token and the spaces before it. */
  datatype Word = Word(spaces: nat, token: seq<Segment>)

  /** What stands between semicolons: words with spaces between them, and spaces at the end. */
  datatype Part = Part(words: seq<Word>, trailing: nat)

  ghost predicate ValidWords(words: seq<Word>) {
    && (forall i :: 0 <= i < |words| ==>
          ValidToken(words[i].token) && (TokenBytes(words[i].token) != [] || AnyQuoted(words[i].token)))
    && forall i :: 1 <= i < |words| ==> words[i].spaces > 0
  }

  ghost function PartText(words: seq<Word>, trailing: nat): Bytes
    requires ValidWords(words)
  {
    if words == [] then Spaces(trailing)
    else Spaces(words[0].spaces) + (SpellToken(words[0].token) + PartText(words[1..], trailing))
  }

  /** The tokens of the words, but for an empty one directly before a semicolon, which is dropped. */
  function WordTokens(words: seq<Word>, trailing: nat, atEnd: bool): seq<Token> {
    if words == [] then []
    else
      var bytes := TokenBytes(words[0].token);
      (if bytes == [] && |words| == 1 && trailing == 0 && !atEnd then [] else [Text(bytes)])
      + WordTokens(words[1..], trailing, atEnd)
  }

  ghost predicate NoQuotes(words: seq<Word>) {
    forall i :: 0 <= i < |words| ==> !AnyQuoted(words[i].token)
  }

  /** What comes after a part: the end, or a semicolon. */
  ghost predicate AfterPart(rest: Bytes) {
    rest == [] || rest[0] == SEMICOLON
  }

  /** The result after a part with these tokens. */
  ghost function PartResult(rest: Bytes, force: bool, tokens: seq<Token>, ret: seq<seq<Token>>): Parsed
    requires AfterPart(rest)
  {
    if rest == [] then Parsed(ret + [tokens], false, false) else ParseToken(rest[1..], force, [], ret + [tokens])
  }

  lemma NoWords(trailing: nat, rest: Bytes, force: bool, buf: seq<Token>, ret: seq<seq<Token>>)
    requires AfterPart(rest) && (rest == [] ==> !force)
    ensures ParseToken(Spaces(trailing) + rest, force, buf, ret) == PartResult(rest, force, buf, ret)
  {
    StartSpaces(trailing, rest, force, buf, ret);
  }

  /** A token before the end of a part. */
  lemma LastToken(bytes: Bytes, rest: Bytes, force: bool, buf: seq<Token>, ret: seq<seq<Token>>)
    requires AfterPart(rest) && (bytes != [] || force)
    ensures ParseFrom(bytes, rest, false, force, buf, ret)
         == PartResult(rest, force, if bytes == [] && rest != [] then buf else buf + [Text(bytes)], ret)
  {
  }

  /** A token before a space. */
  lemma SpacedToken(bytes: Bytes, rest: Bytes, force: bool, buf: seq<Token>, ret: seq<seq<Token>>)
    requires rest != [] && rest[0] == SPACE
    ensures ParseFrom(bytes, rest, false, force, buf, ret) == ParseToken(rest, false, buf + [Text(bytes)], ret)
  {
    StartSkips(rest, false, buf + [Text(bytes)], ret);
  }

  lemma {:induction false} StartWords(words: seq<Word>, trailing: nat, rest: Bytes, force: bool, buf: seq<Token>, ret: seq<seq<Token>>)
    returns (force': bool)
    requires ValidWords(words) && AfterPart(rest) && (rest == [] && words == [] ==> !force)
    ensures ParseToken(PartText(words, trailing) + rest, force, buf, ret)
         == PartResult(rest, force', buf + WordTokens(words, trailing, rest == []), ret)
    ensures !force && NoQuotes(words) ==> !force'
    decreases |words|
  {
    hide ParseToken, ParseFrom, PartResult, SpellToken, TokenBytes, AnyQuoted;
    if words == [] {
      NoWords(trailing, rest, force, buf, ret);
      assert buf + WordTokens(words, trailing, rest == []) == buf;
      force' := force;
    } else {
      var w, more := words[0], PartText(words[1..], trailing) + rest;
      var bytes := TokenBytes(w.token);
      assert PartText(words, trailing) + rest == Spaces(w.spaces) + (SpellToken(w.token) + more);
      StartSpaces(w.spaces, SpellToken(w.token) + more, force, buf, ret);
      StartToken(w.token, more, force, buf, ret);
      var tokens := WordTokens(words[1..], trailing, rest == []);
      if |words| > 1 || trailing > 0 {
        assert buf + [Text(bytes)] + tokens == buf + ([Text(bytes)] + tokens);
        FirstSpace(words[1..], trailing, rest);
        SpacedToken(bytes, more, force || AnyQuoted(w.token), buf, ret);
        force' := StartWords(words[1..], trailing, rest, false, buf + [Text(bytes)], ret);
      } else {
        assert more == rest && tokens == [];
        force' := force || AnyQuoted(w.token);
        LastToken(bytes, rest, force', buf, ret);
        var last := if bytes == [] && rest != [] then [] else [Text(bytes)];
        assert buf + (last + []) == if bytes == [] && rest != [] then buf else buf + [Text(bytes)];
      }
    }
  }

  lemma FirstSpace(words: seq<Word>, trailing: nat, rest: Bytes)
    requires ValidWords(words) && if words == [] then trailing > 0 else words[0].spaces > 0
    ensures PartText(words, trailing) + rest != [] && (PartText(words, trailing) + rest)[0] == SPACE
  {
    hide SpellToken;
  }

  ghost predicate ValidParts(parts: seq<Part>) {
    forall i :: 0 <= i < |parts| ==> ValidWords(parts[i].words)
  }

  ghost function LineText(parts: seq<Part>): Bytes
    requires ValidParts(parts)
  {
    if parts == [] then []
    else if |parts| == 1 then PartText(parts[0].words, parts[0].trailing)
    else PartText(parts[0].words, parts[0].trailing) + ([SEMICOLON] + LineText(parts[1..]))
  }

  function PartTokens(parts: seq<Part>): seq<seq<Token>> {
    if parts == [] then []
    else [WordTokens(parts[0].words, parts[0].trailing, |parts| == 1)] + PartTokens(parts[1..])
  }

  lemma {:induction false} StartParts(parts: seq<Part>, force: bool, ret: seq<seq<Token>>)
    requires ValidParts(parts) && parts != []
    requires parts[|parts| - 1].words != [] || (!force && forall i :: 0 <= i < |parts| ==> NoQuotes(parts[i].words))
    ensures ParseToken(LineText(parts), force, [], ret) == Parsed(ret + PartTokens(parts), false, false)
    decreases |parts|
  {
    hide ParseToken, PartText, ValidWords, NoQuotes, WordTokens;
    var words, trailing := parts[0].words, parts[0].trailing;
    var tokens := WordTokens(words, trailing, |parts| == 1);
    assert [] + tokens == tokens;
    if |parts| == 1 {
      assert LineText(parts) == PartText(words, trailing) + [];
      var force' := StartWords(words, trailing, [], force, [], ret);
      assert PartTokens(parts) == [tokens];
    } else {
      var more := LineText(parts[1..]);
      var force' := StartWords(words, trailing, [SEMICOLON] + more, force, [], ret);
      assert ([SEMICOLON] + more)[1..] == more;
      StartParts(parts[1..], force', ret + [tokens]);
      assert ret + [tokens] + PartTokens(parts[1..]) == ret + PartTokens(parts);
    }
  }

  /**
   * Lines as users write them: tokens of any mix of plain bytes, escape sequences and quoted parts, with any spaces
   * around them, and semicolons between groups of them, are parsed to these tokens.  An empty token, which needs
   * quotes, is lost directly before a semicolon.  After quotes, the line must not end in a semicolon and spaces.
   */
  lemma ParseSpelled(parts: seq<Part>)
    requires ValidParts(parts) && parts != []
    requires parts[|parts| - 1].words != [] || forall i :: 0 <= i < |parts| ==> NoQuotes(parts[i].words)
    ensures Parse(LineText(parts)) == Parsed(PartTokens(parts), false, false)
  {
    hide ParseToken, LineText, PartTokens;
    StartParts(parts, false, []);
    assert [] + PartTokens(parts) == PartTokens(parts);
  }

  /** A malformed sequence after the start of a token is an error, and the token is dropped. */
  lemma MalformedFails(token: seq<Segment>, rest: Bytes)
    requires ValidToken(token) && rest != [] && rest[0] == BACKSLASH && Escape(rest).None?
    ensures Parse(SpellToken(token) + rest) == Parsed([[]], true, false)
  {
    hide SpellToken, TokenBytes, AnyQuoted, Escape;
    TokenStart(token);
    var text := SpellToken(token) + rest;
    assert SkipSpaces(text) == text;
    ScanToken([], token, false, rest, [], []);
    var none: seq<Token> := [];
    assert [] + [none] == [none];
  }

  // ---------- Errors ----------

  /** The text has an odd number of quotes that are not part of an escape sequence. */
  predicate OddQuotes(text: Bytes) {
    if text == [] then false
    else if text[0] == QUOTE then !OddQuotes(text[1..])
    else if text[0] == BACKSLASH then Escape(text).Some? && OddQuotes(text[Escape(text).value.1..])
    else OddQuotes(text[1..])
  }

  lemma {:induction false} ScanFlags(cur: Bytes, rest: Bytes, quoted: bool, force: bool, buf: seq<Token>, ret: seq<seq<Token>>)
    ensures var p := ParseFrom(cur, rest, quoted, force, buf, ret);
            && (p.err <==> HexStrings.Unescape(rest).None?)
            && (p.partial <==> !p.err && quoted != OddQuotes(rest))
    decreases |rest|, 0
  {
    hide Escape;
    if rest == [] {
    } else if rest[0] == SEMICOLON && !quoted {
      StartFlags(rest[1..], force, [], ret + [if cur != [] then buf + [Text(cur)] else buf]);
    } else if rest[0] == QUOTE {
      ScanFlags(cur, rest[1..], !quoted, force || !quoted, buf, ret);
    } else if rest[0] == SPACE && !quoted {
      StartFlags(rest[1..], false, buf + [Text(cur)], ret);
    } else if rest[0] == BACKSLASH {
      if Escape(rest).Some? {
        var (b, n) := Escape(rest).value;
        ScanFlags(cur + [b], rest[n..], quoted, force, buf, ret);
      }
    } else {
      ScanFlags(cur + [rest[0]], rest[1..], quoted, force, buf, ret);
    }
  }

  lemma {:induction false} StartFlags(rest: Bytes, force: bool, buf: seq<Token>, ret: seq<seq<Token>>)
    ensures var p := ParseToken(rest, force, buf, ret);
            && (p.err <==> HexStrings.Unescape(rest).None?)
            && (p.partial <==> !p.err && OddQuotes(rest))
    decreases |rest|, 1
  {
    if rest != [] && rest[0] == SPACE {
      StartSkips(rest, force, buf, ret);
      StartFlags(rest[1..], force, buf, ret);
    } else if rest != [] {
      ScanFlags([], rest, false, force, buf, ret);
    }
  }

  /** The parser fails exactly on texts with a malformed sequence, and the result is partial exactly if a quote is open. */
  lemma FlagsIff(text: Bytes)
    ensures Parse(text).err <==> HexStrings.Unescape(text).None?
    ensures Parse(text).partial <==> !Parse(text).err && OddQuotes(text)
  {
    StartFlags(text, false, [], []);
  }

  // ---------- The edited line ----------

  /** The bytes without the quotes that were written as they are. */
  function DropQuotes(s: Bytes, forms: seq<Form>): Bytes
    requires |forms| == |s|
  {
    if s == [] then []
    else (if forms[0].Plain? && s[0] == QUOTE then [] else [s[0]]) + DropQuotes(s[1..], forms[1..])
  }

  /** A malformed number leaves a zero behind it. */
  function AfterError(bad: Bytes): Bytes {
    if |bad| > 4 && bad[1] == LETTER_X then bad[..4] + [0] + bad[5..] else bad
  }

  lemma EditedFirst(b: Byte, form: Form, rest: Bytes)
    requires if form.Plain? then b != BACKSLASH else StandsFor(form, b)
    ensures Edited(SpellByte(b, form) + rest) == (if form.Plain? && b == QUOTE then [] else [b]) + Edited(rest)
  {
    hide Escape;
    var all := SpellByte(b, form) + rest;
    if form.Plain? {
      assert all[1..] == rest && [] + Edited(rest) == Edited(rest);
    } else {
      EscapeOfSpelled(b, form, rest);
    }
  }

  lemma EditedBad(bad: Bytes)
    requires bad == [] || (bad[0] == BACKSLASH && Escape(bad).None?)
    ensures Edited(bad) == AfterError(bad)
  {
    hide Escape;
    if |bad| > 4 { assert bad[4 := 0] == bad[..4] + [0] + bad[5..]; }
  }

  /** The line after the edits: bytes for escape sequences, no quotes, and from a malformed sequence on what was there. */
  lemma {:induction false} EditedSpelled(text: Bytes, s: Bytes, forms: seq<Form>, bad: Bytes)
    requires HexStrings.Spelling(text, s, forms) && (bad == [] || (bad[0] == BACKSLASH && Escape(bad).None?))
    ensures Edited(text + bad) == DropQuotes(s, forms) + AfterError(bad)
    decreases |s|
  {
    hide Escape, Edited, AfterError, SpellByte, StandsFor;
    if s == [] {
      assert text + bad == bad;
      EditedBad(bad);
    } else {
      var rest := Spell(s[1..], forms[1..]);
      EditedSpelled(rest, s[1..], forms[1..], bad);
      assert text + bad == SpellByte(s[0], forms[0]) + (rest + bad);
      EditedFirst(s[0], forms[0], rest + bad);
      var first := if forms[0].Plain? && s[0] == QUOTE then [] else [s[0]];
      assert first + (DropQuotes(s[1..], forms[1..]) + AfterError(bad)) == first + DropQuotes(s[1..], forms[1..]) + AfterError(bad);
    }
  }

  // ---------- Wild views ----------

  /**
   * The text ends in an unquoted semicolon and spaces, and a quote was opened before that with no unquoted space
   * after it.
   */
  predicate EndsForced(rest: Bytes, quoted: bool, force: bool)
    decreases |rest|, 0
  {
    if rest == [] then false
    else if rest[0] == SEMICOLON && !quoted then StartsForced(rest[1..], force)
    else if rest[0] == QUOTE then EndsForced(rest[1..], !quoted, force || !quoted)
    else if rest[0] == SPACE && !quoted then StartsForced(rest[1..], false)
    else if rest[0] == BACKSLASH then Escape(rest).Some? && EndsForced(rest[Escape(rest).value.1..], quoted, force)
    else EndsForced(rest[1..], quoted, force)
  }

  predicate StartsForced(rest: Bytes, force: bool)
    decreases |rest|, 1
  {
    var text := SkipSpaces(rest);
    if text == [] then force else EndsForced(text, false, force)
  }

  ghost predicate HasWild(groups: seq<seq<Token>>) {
    exists g :: g in groups && Wild in g
  }

  lemma WildLast(buf: seq<Token>, ret: seq<seq<Token>>)
    ensures HasWild(ret + [buf]) <==> HasWild(ret) || Wild in buf
  {
    if Wild in buf { assert buf in ret + [buf]; }
    if HasWild(ret) {
      var g :| g in ret && Wild in g;
      assert g in ret + [buf];
    }
  }

  lemma {:induction false} ScanWildIff(cur: Bytes, rest: Bytes, quoted: bool, force: bool, buf: seq<Token>, ret: seq<seq<Token>>)
    requires Wild !in buf && !HasWild(ret)
    ensures HasWild(ParseFrom(cur, rest, quoted, force, buf, ret).groups) <==> EndsForced(rest, quoted, force)
    decreases |rest|, 0
  {
    hide HasWild;
    WildLast(buf, ret);
    WildLast(buf + [Text(cur)], ret);
    if rest == [] {
    } else if rest[0] == SEMICOLON && !quoted {
      StartWildIff(rest[1..], force, [], ret + [if cur != [] then buf + [Text(cur)] else buf]);
    } else if rest[0] == QUOTE {
      ScanWildIff(cur, rest[1..], !quoted, force || !quoted, buf, ret);
    } else if rest[0] == SPACE && !quoted {
      StartWildIff(rest[1..], false, buf + [Text(cur)], ret);
    } else if rest[0] == BACKSLASH {
      if Escape(rest).Some? {
        var (b, n) := Escape(rest).value;
        ScanWildIff(cur + [b], rest[n..], quoted, force, buf, ret);
      }
    } else {
      ScanWildIff(cur + [rest[0]], rest[1..], quoted, force, buf, ret);
    }
  }

  lemma {:induction false} StartWildIff(rest: Bytes, force: bool, buf: seq<Token>, ret: seq<seq<Token>>)
    requires Wild !in buf && !HasWild(ret)
    ensures HasWild(ParseToken(rest, force, buf, ret).groups) <==> StartsForced(rest, force)
    decreases |rest|, 1
  {
    hide HasWild;
    var text := SkipSpaces(rest);
    if text == [] {
      WildLast(if force then buf + [Wild] else buf, ret);
    } else {
      ScanWildIff([], text, false, force, buf, ret);
    }
  }

  /** A view that does not lie inside the line is made exactly for texts that end while a token is forced. */
  lemma WildIff(text: Bytes)
    ensures HasWild(Parse(text).groups) <==> StartsForced(text, false)
  {
    StartWildIff(text, false, [], []);
  }

  /** Such a text has a quote, and ends in a semicolon and spaces. */
  lemma WildNeeds(text: Bytes)
    requires HasWild(Parse(text).groups)
    ensures QUOTE in text
    ensures exists i :: 0 <= i < |text| && text[i] == SEMICOLON && AllSpaces(text[i + 1..])
  {
    WildIff(text);
    var skipped := SkipAll(text);
    assert text[skipped..] != [] && EndsForced(text[skipped..], false, false);
    var i := ForcedNeeds(text[skipped..], false, false);
    assert text[skipped + i + 1..] == text[skipped..][i + 1..];
    assert text[skipped + i] == SEMICOLON;
  }

  predicate AllSpaces(s: Bytes) {
    SkipSpaces(s) == []
  }

  /** How many spaces a text begins with. */
  lemma {:induction false} SkipAll(s: Bytes) returns (n: nat)
    ensures n <= |s| && SkipSpaces(s) == s[n..]
  {
    n := 0;
    if s != [] && s[0] == SPACE {
      n := SkipAll(s[1..]);
      assert s[n + 1..] == s[1..][n..];
      n := n + 1;
    }
  }

  /** Either the text is a semicolon and spaces after a forced token, or the rest of it ends in the same way. */
  lemma ForcedStep(rest: Bytes, quoted: bool, force: bool) returns (k: nat, quoted': bool, force': bool)
    requires EndsForced(rest, quoted, force)
    ensures rest != [] && k <= |rest|
    ensures k == 0 ==> rest[0] == SEMICOLON && AllSpaces(rest[1..]) && force
    ensures k > 0 ==> EndsForced(rest[k..], quoted', force') && (force' ==> force || rest[0] == QUOTE)
  {
    k := if rest[0] == BACKSLASH then Escape(rest).value.1 else 1;
    quoted', force' := if rest[0] == QUOTE then !quoted else quoted, force || (rest[0] == QUOTE && !quoted);
    if (rest[0] == SEMICOLON || rest[0] == SPACE) && !quoted {
      force' := force && rest[0] != SPACE;
      if SkipSpaces(rest[1..]) == [] {
        k := 0;
      } else {
        var skipped := SkipAll(rest[1..]);
        assert rest[1..][skipped..] == rest[1 + skipped..];
        k := 1 + skipped;
      }
    }
  }

  lemma {:induction false} ForcedNeeds(rest: Bytes, quoted: bool, force: bool) returns (i: nat)
    requires EndsForced(rest, quoted, force)
    ensures i < |rest| && rest[i] == SEMICOLON && AllSpaces(rest[i + 1..])
    ensures force || QUOTE in rest
    decreases |rest|
  {
    hide EndsForced, SkipSpaces;
    var k, quoted', force' := ForcedStep(rest, quoted, force);
    i := 0;
    if k > 0 {
      i := ForcedNeeds(rest[k..], quoted', force');
      assert rest[k..][i + 1..] == rest[k + i + 1..];
      i := k + i;
    }
  }

  /** A text without quotes has no view outside the line. */
  lemma NoQuotesNoWild(text: Bytes)
    requires QUOTE !in text
    ensures !HasWild(Parse(text).groups)
  {
    if HasWild(Parse(text).groups) {
      WildNeeds(text);
    }
  }

  /** A quoted token before a semicolon and spaces at the end gives such a view, whatever is quoted. */
  lemma QuotedThenSemicolon(s: Bytes, spaces: Bytes)
    requires QUOTE !in s && BACKSLASH !in s && AllSpaces(spaces)
    ensures Parse([QUOTE] + s + [QUOTE, SEMICOLON] + spaces).groups == [if s == [] then [] else [Text(s)], [Wild]]
  {
    hide Parse, ParseFrom;
    var rest := [QUOTE, SEMICOLON] + spaces;
    assert [QUOTE] + s + [QUOTE, SEMICOLON] + spaces == [QUOTE] + (s + rest);
    OpenQuote(s + rest);
    ScanQuoted([], s, rest, [], []);
    assert [] + s == s;
    CloseThenSemicolon(s, spaces);
  }

  lemma CloseThenSemicolon(s: Bytes, spaces: Bytes)
    requires AllSpaces(spaces)
    ensures ParseFrom(s, [QUOTE, SEMICOLON] + spaces, true, true, [], []).groups == [if s == [] then [] else [Text(s)], [Wild]]
  {
    var group := if s == [] then [] else [Text(s)];
    assert ([QUOTE, SEMICOLON] + spaces)[1..] == [SEMICOLON] + spaces && ([SEMICOLON] + spaces)[1..] == spaces;
    assert [] + [Text(s)] == [Text(s)] && [] + [group] == [group] && [] + [Wild] == [Wild] && [group] + [[Wild]] == [group, [Wild]];
    assert ParseToken(spaces, true, [], [group]).groups == [group, [Wild]];
    assert ParseFrom(s, [SEMICOLON] + spaces, false, true, [], []) == ParseToken(spaces, true, [], [group]);
  }
}
