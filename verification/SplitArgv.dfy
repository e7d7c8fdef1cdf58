/**
 * Splitting a console command line into arguments in place: the arguments are
 * written, NUL-terminated, over the very buffer that is still being read.
 */
module SplitArgv {
  import opened Common

  const QUOTE: char := '"'
  const ESCAPE: char := '\\'
  const SPACE: char := ' '
  const NUL: char := '\0'

  /** Characters that may be written with a backslash in front. */
  predicate Escapable(c: char) { c == ESCAPE || c == QUOTE || c == SPACE }

  // ----- what a line means -----------------------------------------------------------

  /**
   * The text of an argument from s on, quoted or not, and what follows it.  An argument runs to its
   * closing quote or to the next space, or to the end of the line.
   */
  function Body(s: string, quoted: bool): (r: (string, string))
    ensures |r.1| < |s| || s == []
    ensures s == [] ==> r == ("", "")
    decreases |s|
  {
    if s == [] then ("", "")
    else if s[0] == (if quoted then QUOTE else SPACE) then ("", s[1..])
    else if s[0] == ESCAPE then Escaped(s[1..], quoted)
    else var r := Body(s[1..], quoted); ([s[0]] + r.0, r.1)
  }

  /** The same just behind a backslash; an unknown escape is dropped. */
  function Escaped(s: string, quoted: bool): (r: (string, string))
    ensures |r.1| <= |s|
    decreases |s|
  {
    if s == [] then ("", "")
    else
      var r := Body(s[1..], quoted);
      if Escapable(s[0]) then ([s[0]] + r.0, r.1) else r
  }

  /** The first `limit` arguments of a line. */
  function Tokens(s: string, limit: nat): (toks: seq<string>)
    ensures |toks| <= limit
    decreases |s|
  {
    if limit == 0 || s == [] then []
    else if s[0] == SPACE then Tokens(s[1..], limit)
    else
      var r := if s[0] == QUOTE then Body(s[1..], true) else Body(s, false);
      [r.0] + Tokens(r.1, limit - 1)
  }

  // ----- quoting is undone by splitting ---------------------------------------------

  function EscapeAll(s: string): string {
    if s == [] then []
    else (if s[0] == QUOTE || s[0] == ESCAPE then [ESCAPE, s[0]] else [s[0]]) + EscapeAll(s[1..])
  }

  function Quote(s: string): string { [QUOTE] + EscapeAll(s) + [QUOTE] }

  /** The arguments quoted and separated by spaces. */
  function QuoteAll(args: seq<string>): string {
    if args == [] then []
    else Quote(args[0]) + [SPACE] + QuoteAll(args[1..])
  }

  lemma BodyPlain(c: char, rest: string, quoted: bool)
    requires c != ESCAPE && c != (if quoted then QUOTE else SPACE)
    ensures Body([c] + rest, quoted) == ([c] + Body(rest, quoted).0, Body(rest, quoted).1)
  {
    assert ([c] + rest)[1..] == rest;
  }

  lemma BodyEscape(c: char, rest: string, quoted: bool)
    ensures Body([ESCAPE] + ([c] + rest), quoted) ==
            ((if Escapable(c) then [c] else []) + Body(rest, quoted).0, Body(rest, quoted).1)
  {
    var s := [ESCAPE] + ([c] + rest);
    assert s[1..] == [c] + rest;
    assert ([c] + rest)[1..] == rest;
    assert [] + Body(rest, quoted).0 == Body(rest, quoted).0;
  }

  lemma BodyEnd(rest: string, quoted: bool)
    ensures Body([if quoted then QUOTE else SPACE] + rest, quoted) == ("", rest)
  {
    assert ([if quoted then QUOTE else SPACE] + rest)[1..] == rest;
  }

  lemma {:induction false} BodyOfEscaped(s: string, tail: string)
    ensures Body(EscapeAll(s) + ([QUOTE] + tail), true) == (s, tail)
  {
    hide Body;
    var end := [QUOTE] + tail;
    if s == [] {
      assert EscapeAll(s) + end == end;
      BodyEnd(tail, true);
    } else {
      BodyOfEscaped(s[1..], tail);
      var rest := EscapeAll(s[1..]) + end;
      assert [s[0]] + s[1..] == s;
      if s[0] == QUOTE || s[0] == ESCAPE {
        assert [ESCAPE, s[0]] == [ESCAPE] + [s[0]];
        Assoc([ESCAPE, s[0]], EscapeAll(s[1..]), end);
        Assoc([ESCAPE], [s[0]], rest);
        BodyEscape(s[0], rest, true);
      } else {
        Assoc([s[0]], EscapeAll(s[1..]), end);
        BodyPlain(s[0], rest, true);
      }
    }
  }

  /** Splitting quoted arguments gives them back, as many as there is room for. */
  lemma {:induction false} RoundTrip(args: seq<string>, limit: nat)
    ensures Tokens(QuoteAll(args), limit) == args[..Min(limit, |args|)]
  {
    hide Body, EscapeAll;
    if args != [] && limit > 0 {
      var rest := [SPACE] + QuoteAll(args[1..]);
      var text := EscapeAll(args[0]) + ([QUOTE] + rest);
      QuotedLine([QUOTE], EscapeAll(args[0]), [QUOTE], [SPACE], QuoteAll(args[1..]));
      BodyOfEscaped(args[0], rest);
      TokensQuoted(text, limit);
      RoundTrip(args[1..], limit - 1);
      SkipSpace(QuoteAll(args[1..]), limit - 1);
      assert args[..Min(limit, |args|)] == [args[0]] + args[1..][..Min(limit - 1, |args| - 1)];
    }
  }

  lemma QuotedLine(q: string, e: string, q': string, sp: string, rest: string)
    ensures q + e + q' + sp + rest == q + (e + (q' + (sp + rest)))
  {
    Assoc(q + e + q', sp, rest);
    Assoc(q + e, q', sp + rest);
    Assoc(q, e, q' + (sp + rest));
  }

  lemma TokensQuoted(text: string, limit: nat)
    requires limit > 0
    ensures Tokens([QUOTE] + text, limit) == [Body(text, true).0] + Tokens(Body(text, true).1, limit - 1)
  {
    assert ([QUOTE] + text)[1..] == text;
  }

  lemma SkipSpace(s: string, limit: nat)
    ensures Tokens([SPACE] + s, limit) == Tokens(s, limit)
  {
    assert ([SPACE] + s)[1..] == s;
  }

  /** Quoting puts no NUL into the line that was not in an argument. */
  lemma {:induction false} QuoteAllNulFree(args: seq<string>)
    requires forall i :: 0 <= i < |args| ==> NUL !in args[i]
    ensures NUL !in QuoteAll(args)
  {
    if args != [] {
      EscapeNulFree(args[0]);
      QuoteAllNulFree(args[1..]);
    }
  }

  lemma {:induction false} EscapeNulFree(s: string)
    requires NUL !in s
    ensures NUL !in EscapeAll(s)
  {
    if s != [] {
      EscapeNulFree(s[1..]);
    }
  }

  // ----- what every line means ------------------------------------------------------

  /** A character as it is spelled inside an argument: as it is, or with a backslash in front. */
  datatype Spelled = Plain(c: char) | Escape(c: char)

  /** How an argument ends: as it should, or at the end of the line, perhaps just behind a backslash. */
  datatype End = Closed | Open | Dangling

  datatype Item = Gap | Word(quoted: bool, text: seq<Spelled>, end: End)

  /** The characters an argument stands for: all but the unknown escapes. */
  function Meaning(text: seq<Spelled>): string {
    if text == [] then ""
    else (if text[0].Plain? || Escapable(text[0].c) then [text[0].c] else "") + Meaning(text[1..])
  }

  function Spell(text: seq<Spelled>): string {
    if text == [] then ""
    else (if text[0].Plain? then [text[0].c] else [ESCAPE, text[0].c]) + Spell(text[1..])
  }

  /** What ends an argument: a closing quote, or a space. */
  function Terminator(quoted: bool): char { if quoted then QUOTE else SPACE }

  /** Characters spelled as they are neither escape nor end the argument. */
  predicate Proper(text: seq<Spelled>, quoted: bool) {
    forall i :: 0 <= i < |text| && text[i].Plain? ==> text[i].c != ESCAPE && text[i].c != Terminator(quoted)
  }

  function SpellEnd(quoted: bool, end: End): string {
    match end
    case Closed => [Terminator(quoted)]
    case Open => ""
    case Dangling => [ESCAPE]
  }

  /** An argument without quotes does not start with one and has at least a character or a backslash. */
  predicate ProperItem(item: Item) {
    item.Word? ==>
      && Proper(item.text, item.quoted)
      && (!item.quoted ==> if item.text == [] then item.end == Dangling else item.text[0] != Plain(QUOTE))
  }

  function SpellItem(item: Item): string {
    match item
    case Gap => [SPACE]
    case Word(quoted, text, end) => (if quoted then [QUOTE] else "") + (Spell(text) + SpellEnd(quoted, end))
  }

  /** A line: only its last argument may end with the line. */
  predicate ProperLine(items: seq<Item>) {
    forall i :: 0 <= i < |items| ==>
                  && ProperItem(items[i])
                  && (items[i].Word? && items[i].end != Closed ==> i == |items| - 1)
  }

  function SpellLine(items: seq<Item>): string {
    if items == [] then "" else SpellItem(items[0]) + SpellLine(items[1..])
  }

  function Meanings(items: seq<Item>): seq<string> {
    if items == [] then []
    else (if items[0].Word? then [Meaning(items[0].text)] else []) + Meanings(items[1..])
  }

  lemma {:induction false} BodyOfText(text: seq<Spelled>, tail: string, quoted: bool)
    requires Proper(text, quoted)
    ensures Body(Spell(text) + tail, quoted) == (Meaning(text) + Body(tail, quoted).0, Body(tail, quoted).1)
  {
    hide Body;
    if text == [] {
      assert Spell(text) + tail == tail && "" + Body(tail, quoted).0 == Body(tail, quoted).0;
    } else {
      var rest := Spell(text[1..]) + tail;
      var c := text[0].c;
      BodyOfText(text[1..], tail, quoted);
      Assoc(if text[0].Plain? || Escapable(c) then [c] else "", Meaning(text[1..]), Body(tail, quoted).0);
      if text[0].Plain? {
        Assoc([c], Spell(text[1..]), tail);
        BodyPlain(c, rest, quoted);
      } else {
        Assoc([ESCAPE, c], Spell(text[1..]), tail);
        Assoc([ESCAPE], [c], rest);
        assert [ESCAPE, c] == [ESCAPE] + [c];
        BodyEscape(c, rest, quoted);
      }
    }
  }

  lemma BodyOfEnd(quoted: bool, end: End, rest: string)
    requires end != Closed ==> rest == ""
    ensures Body(SpellEnd(quoted, end) + rest, quoted) == ("", rest)
  {
    BodyEnd(rest, quoted);
    assert [ESCAPE][1..] == "";
    assert "" + rest == rest;
    assert [ESCAPE] + "" == [ESCAPE];
  }

  lemma BodyOfWord(item: Item, rest: string)
    requires item.Word? && ProperItem(item) && (item.end != Closed ==> rest == "")
    ensures Body((Spell(item.text) + SpellEnd(item.quoted, item.end)) + rest, item.quoted) == (Meaning(item.text), rest)
  {
    hide Body, Spell, SpellEnd, Proper;
    var tail := SpellEnd(item.quoted, item.end) + rest;
    Assoc(Spell(item.text), SpellEnd(item.quoted, item.end), rest);
    BodyOfText(item.text, tail, item.quoted);
    BodyOfEnd(item.quoted, item.end, rest);
    assert Meaning(item.text) + "" == Meaning(item.text);
  }

  /** An argument without quotes starts with something that is neither a space nor a quote. */
  lemma BareStart(item: Item, rest: string)
    requires item.Word? && !item.quoted && ProperItem(item)
    ensures var s := SpellItem(item) + rest; s != "" && s[0] != SPACE && s[0] != QUOTE
  {
    assert item.text != [] && item.text[0].Plain? ==> item.text[0].c != SPACE;
  }

  lemma TokensWord(item: Item, rest: string, limit: nat)
    requires item.Word? && ProperItem(item) && (item.end != Closed ==> rest == "") && limit > 0
    ensures Tokens(SpellItem(item) + rest, limit) == [Meaning(item.text)] + Tokens(rest, limit - 1)
  {
    hide Body, Spell, SpellEnd, ProperItem;
    var text := Spell(item.text) + SpellEnd(item.quoted, item.end);
    BodyOfWord(item, rest);
    if item.quoted {
      Assoc([QUOTE], text, rest);
      TokensQuoted(text + rest, limit);
    } else {
      BareStart(item, rest);
      assert SpellItem(item) == text;
    }
  }

  /**
   * Splitting gives back what a line spells: quoted arguments and others, with escapes, quotes inside
   * words, any number of spaces, and a last argument that only the end of the line ends.
   */
  lemma {:induction false} SplitsAsSpelled(items: seq<Item>, limit: nat)
    requires ProperLine(items)
    ensures Tokens(SpellLine(items), limit) == Meanings(items)[..Min(limit, |Meanings(items)|)]
  {
    hide Tokens, SpellItem, ProperItem, Meaning;
    if limit == 0 {
      NoTokens(SpellLine(items));
    } else if items == [] {
      NoTokens("");
      assert Tokens("", limit) == [] by { EmptyLine(limit); }
    } else {
      var item, rest := items[0], SpellLine(items[1..]);
      if item.Gap? {
        SplitsAsSpelled(items[1..], limit);
        assert SpellItem(item) == [SPACE] by { GapIsSpace(); }
        SkipSpace(rest, limit);
      } else {
        SplitsAsSpelled(items[1..], limit - 1);
        assert item.end != Closed ==> items[1..] == [];
        TokensWord(item, rest, limit);
        var ms := Meanings(items[1..]);
        assert ([Meaning(item.text)] + ms)[..Min(limit, |ms| + 1)] == [Meaning(item.text)] + ms[..Min(limit - 1, |ms|)];
      }
    }
  }

  lemma NoTokens(s: string)
    ensures Tokens(s, 0) == []
  {
  }

  lemma EmptyLine(limit: nat)
    ensures Tokens("", limit) == []
  {
  }

  lemma GapIsSpace()
    ensures SpellItem(Gap) == [SPACE] && ProperItem(Gap)
  {
  }

  /** The text of an argument from s on, up to and including what ends it. */
  lemma {:induction false} ReadText(s: string, quoted: bool) returns (text: seq<Spelled>, end: End, rest: string)
    ensures Proper(text, quoted) && (end != Closed ==> rest == "")
    ensures s == Spell(text) + SpellEnd(quoted, end) + rest
    ensures s != "" && s[0] != Terminator(quoted) ==> if text == [] then end == Dangling else text[0] != Plain(Terminator(quoted))
    ensures s != "" && s[0] != QUOTE && text != [] ==> text[0] != Plain(QUOTE)
    decreases |s|
  {
    hide Spell, Proper;
    if s == "" {
      text, end, rest := [], Open, "";
      NothingSpelled(quoted);
    } else if s[0] == Terminator(quoted) {
      text, end, rest := [], Closed, s[1..];
      NothingSpelled(quoted);
    } else if s == [ESCAPE] {
      text, end, rest := [], Dangling, "";
      NothingSpelled(quoted);
    } else {
      var n := if s[0] == ESCAPE then 2 else 1;
      var first := if s[0] == ESCAPE then Escape(s[1]) else Plain(s[0]);
      text, end, rest := ReadText(s[n..], quoted);
      SpellFirst(first, text, SpellEnd(quoted, end), rest, quoted);
      SplitAt(s, n);
      text := [first] + text;
    }
  }

  lemma NothingSpelled(quoted: bool)
    ensures Spell([]) == "" && Proper([], quoted)
  {
  }

  lemma SpellFirst(first: Spelled, text: seq<Spelled>, end: string, rest: string, quoted: bool)
    requires Proper(text, quoted) && (first.Plain? ==> first.c != ESCAPE && first.c != Terminator(quoted))
    ensures Proper([first] + text, quoted)
    ensures Spell([first] + text) + end + rest ==
            (if first.Plain? then [first.c] else [ESCAPE, first.c]) + (Spell(text) + end + rest)
  {
    var lead := if first.Plain? then [first.c] else [ESCAPE, first.c];
    assert ([first] + text)[1..] == text;
    Assoc(lead, Spell(text), end);
    Assoc(lead, Spell(text) + end, rest);
  }

  /** Every line spells something, so `SplitsAsSpelled` says what it is split into. */
  lemma {:induction false} EveryLineSpells(s: string) returns (items: seq<Item>)
    ensures ProperLine(items) && SpellLine(items) == s
    decreases |s|
  {
    hide SpellItem, ProperItem;
    if s == "" {
      items := [];
    } else {
      var item, rest;
      if s[0] == SPACE {
        item, rest := Gap, s[1..];
        GapIsSpace();
        assert [SPACE] + s[1..] == s;
      } else {
        item, rest := ReadWord(s);
      }
      items := EveryLineSpells(rest);
      assert ([item] + items)[1..] == items;
      if item.Word? && item.end != Closed {
        assert items == [] by { SpellsNothing(items); }
      }
      items := [item] + items;
    }
  }

  lemma SpellsNothing(items: seq<Item>)
    ensures ProperLine(items) && SpellLine(items) == "" ==> items == []
  {
    if items != [] && ProperLine(items) {
      assert ProperItem(items[0]);
      assert |SpellItem(items[0])| > 0 by { SpellsSomething(items[0]); }
    }
  }

  lemma SpellsSomething(item: Item)
    requires ProperItem(item)
    ensures |SpellItem(item)| > 0
  {
  }

  lemma ReadWord(s: string) returns (item: Item, rest: string)
    requires s != "" && s[0] != SPACE
    ensures item.Word? && ProperItem(item) && (item.end != Closed ==> rest == "")
    ensures SpellItem(item) + rest == s && |SpellItem(item)| > 0
  {
    hide Spell, SpellEnd, Proper;
    if s[0] == QUOTE {
      var text, end, r := ReadText(s[1..], true);
      item, rest := Word(true, text, end), r;
      Assoc([QUOTE], Spell(text) + SpellEnd(true, end), rest);
    } else {
      var text, end, r := ReadText(s, false);
      item, rest := Word(false, text, end), r;
      assert SpellItem(item) == Spell(text) + SpellEnd(false, end);
      SpellsSomething(item);
    }
  }

  // ----- arguments without quotes ------------------------------------------------------

  /** A backslash in front of each space, quote and backslash. */
  function Bare(s: string): seq<Spelled> {
    if s == [] then [] else [if s[0] in {' ', '"', '\\'} then Escape(s[0]) else Plain(s[0])] + Bare(s[1..])
  }

  lemma {:induction false} BareMeaning(s: string)
    ensures Meaning(Bare(s)) == s && Proper(Bare(s), false)
    ensures s != "" ==> Bare(s) != [] && Bare(s)[0] != Plain(QUOTE)
  {
    if s != [] {
      BareMeaning(s[1..]);
      assert [s[0]] + s[1..] == s;
    }
  }

  /** A backslash in front of anything else is lost together with it. */
  lemma {:induction false} UnknownDropped(before: seq<Spelled>, c: char, after: seq<Spelled>)
    ensures c !in {' ', '"', '\\'} ==> Meaning(before + [Escape(c)] + after) == Meaning(before + after)
  {
    if before == [] {
      assert [Escape(c)] + after == before + [Escape(c)] + after && ([Escape(c)] + after)[1..] == after;
      assert before + after == after && "" + Meaning(after) == Meaning(after);
    } else {
      UnknownDropped(before[1..], c, after);
      assert (before + [Escape(c)] + after)[1..] == before[1..] + [Escape(c)] + after;
      assert (before + after)[1..] == before[1..] + after;
    }
  }

  function Gaps(n: nat): (r: seq<Item>)
    ensures |r| == n && forall i :: 0 <= i < n ==> r[i] == Gap
  {
    seq(n, _ => Gap)
  }

  /** The arguments, each with a space and any number of further ones behind it. */
  function BareLine(args: seq<string>, gaps: seq<nat>): seq<Item>
    requires |args| == |gaps|
  {
    if args == [] then [] else [Word(false, Bare(args[0]), Closed)] + (Gaps(gaps[0]) + BareLine(args[1..], gaps[1..]))
  }

  lemma {:induction false} BareLineMeans(args: seq<string>, gaps: seq<nat>)
    requires |args| == |gaps| && forall i :: 0 <= i < |args| ==> args[i] != ""
    ensures Meanings(BareLine(args, gaps)) == args && ProperLine(BareLine(args, gaps))
    ensures forall i :: 0 <= i < |BareLine(args, gaps)| && BareLine(args, gaps)[i].Word? ==> BareLine(args, gaps)[i].end == Closed
  {
    hide ProperItem, Meaning;
    if args != [] {
      var rest := BareLine(args[1..], gaps[1..]);
      var word := Word(false, Bare(args[0]), Closed);
      BareLineMeans(args[1..], gaps[1..]);
      BareMeaning(args[0]);
      assert ProperItem(word) && ProperItem(Gap) by { BareIsProper(args[0]); }
      MeaningsOfGaps(gaps[0], rest);
      assert ([word] + (Gaps(gaps[0]) + rest))[1..] == Gaps(gaps[0]) + rest;
      assert [args[0]] + args[1..] == args;
    }
  }

  lemma BareIsProper(s: string)
    requires s != ""
    ensures ProperItem(Word(false, Bare(s), Closed)) && ProperItem(Gap)
  {
    BareMeaning(s);
  }

  lemma {:induction false} MeaningsOfGaps(n: nat, rest: seq<Item>)
    ensures Meanings(Gaps(n) + rest) == Meanings(rest)
  {
    if n == 0 {
      assert Gaps(0) + rest == rest;
    } else {
      MeaningsOfGaps(n - 1, rest);
      assert (Gaps(n) + rest)[1..] == Gaps(n - 1) + rest;
      assert [] + Meanings(rest) == Meanings(rest);
    }
  }

  /** Splitting gives back any non-empty arguments written without quotes. */
  lemma BareRoundTrip(args: seq<string>, gaps: seq<nat>, limit: nat)
    requires |args| == |gaps| && forall i :: 0 <= i < |args| ==> args[i] != ""
    ensures Tokens(SpellLine(BareLine(args, gaps)), limit) == args[..Min(limit, |args|)]
  {
    BareLineMeans(args, gaps);
    SplitsAsSpelled(BareLine(args, gaps), limit);
  }

  // ----- the program -------------------------------------------------------------------

  datatype State = InSpace | InArg | InQuoted | InArgEscaped | InQuotedEscaped

  /** The arguments still to come when `cur` of one has been read and `rest` has not. */
  function Resume(st: State, cur: string, rest: string, limit: nat): (toks: seq<string>)
    requires st != InSpace ==> limit > 0
  {
    if st == InSpace then Tokens(rest, limit)
    else
      var r := match st
        case InArg => Body(rest, false)
        case InQuoted => Body(rest, true)
        case InArgEscaped => Escaped(rest, false)
        case _ => Escaped(rest, true);
      [cur + r.0] + Tokens(r.1, limit - 1)
  }

  /** The state machine: the next state, the character put out, and whether an argument ends. */
  function Next(st: State, c: char): (r: (State, Option<char>, bool))
    ensures r.2 <==> (st == InQuoted && c == QUOTE) || (st == InArg && c == SPACE)
    ensures r.2 ==> r.0 == InSpace && r.1 == Some(NUL)
    ensures st != InSpace && r.0 == InSpace ==> r.2
  {
    match st
    case InSpace =>
      if c == SPACE then (InSpace, None, false)
      else if c == QUOTE then (InQuoted, None, false)
      else if c == ESCAPE then (InArgEscaped, None, false)
      else (InArg, Some(c), false)
    case InQuoted =>
      if c == QUOTE then (InSpace, Some(NUL), true)
      else if c == ESCAPE then (InQuotedEscaped, None, false)
      else (InQuoted, Some(c), false)
    case InArgEscaped => (InArg, if Escapable(c) then Some(c) else None, false)
    case InQuotedEscaped => (InQuoted, if Escapable(c) then Some(c) else None, false)
    case InArg =>
      if c == SPACE then (InSpace, Some(NUL), true)
      else if c == ESCAPE then (InArgEscaped, None, false)
      else (InArg, Some(c), false)
  }

  function Out(o: Option<char>): string { if o.Some? then [o.value] else [] }

  /** One character read by the state machine is one character less for the tokenizer. */
  lemma ResumeStep(st: State, cur: string, c: char, rest: string, limit: nat)
    requires limit > 0 && (st == InSpace ==> cur == "")
    ensures var n := Next(st, c);
            Resume(st, cur, [c] + rest, limit) ==
            if n.2 then [cur] + Resume(InSpace, "", rest, limit - 1)
            else Resume(n.0, cur + Out(n.1), rest, limit)
  {
    assert cur + "" == cur;
    assert st == InSpace ==> cur + Out(Next(st, c).1) == Out(Next(st, c).1);
    var s := [c] + rest;
    assert s[1..] == rest;
    match st
    case InSpace => FromSpace(c, rest, limit);
    case InArg => FromBody(cur, c, rest, false);
    case InQuoted => FromBody(cur, c, rest, true);
    case InArgEscaped => FromEscaped(cur, c, rest, false);
    case InQuotedEscaped => FromEscaped(cur, c, rest, true);
  }

  lemma FromSpace(c: char, rest: string, limit: nat)
    requires limit > 0
    ensures Tokens([c] + rest, limit) == Resume(Next(InSpace, c).0, Out(Next(InSpace, c).1), rest, limit)
  {
    var s := [c] + rest;
    assert s[1..] == rest;
    assert forall x: string :: "" + x == x;
  }

  lemma FromBody(cur: string, c: char, rest: string, quoted: bool)
    ensures var b := Body([c] + rest, quoted);
            if c == (if quoted then QUOTE else SPACE) then cur + b.0 == cur && b.1 == rest
            else if c == ESCAPE then b == Escaped(rest, quoted)
            else cur + b.0 == (cur + [c]) + Body(rest, quoted).0 && b.1 == Body(rest, quoted).1
  {
    assert ([c] + rest)[1..] == rest;
    Assoc(cur, [c], Body(rest, quoted).0);
    assert cur + "" == cur;
  }

  lemma FromEscaped(cur: string, c: char, rest: string, quoted: bool)
    ensures var b := Escaped([c] + rest, quoted);
            && b.1 == Body(rest, quoted).1
            && cur + b.0 == (cur + if Escapable(c) then [c] else []) + Body(rest, quoted).0
  {
    assert ([c] + rest)[1..] == rest;
    if Escapable(c) {
      Assoc(cur, [c], Body(rest, quoted).0);
    } else {
      assert cur + [] == cur;
    }
  }

  /** The arguments as they lie in the buffer, each with its NUL. */
  function Joined(toks: seq<string>): string {
    if toks == [] then []
    else Joined(toks[..|toks| - 1]) + toks[|toks| - 1] + [NUL]
  }

  /** Where argument i starts: right behind the NUL of the one before. */
  function Offset(toks: seq<string>, i: nat): nat
    requires i <= |toks|
  {
    |Joined(toks[..i])|
  }

  lemma JoinedAppend(toks: seq<string>, t: string)
    ensures Joined(toks + [t]) == Joined(toks) + t + [NUL]
  {
    assert (toks + [t])[..|toks|] == toks;
  }

  /** The strings are disjoint and in order: each starts one behind the NUL of the one before. */
  lemma {:induction false} StringAt(toks: seq<string>, k: nat)
    requires k < |toks|
    ensures Offset(toks, k + 1) == Offset(toks, k) + |toks[k]| + 1 <= |Joined(toks)|
    ensures Joined(toks)[Offset(toks, k)..Offset(toks, k + 1)] == toks[k] + [NUL]
  {
    var last := |toks| - 1;
    if k < last {
      StringAt(toks[..last], k);
      assert toks[..last][..k] == toks[..k] && toks[..last][..k + 1] == toks[..k + 1];
      assert Joined(toks) == Joined(toks[..last]) + (toks[last] + [NUL]);
      assert Joined(toks)[..|Joined(toks[..last])|] == Joined(toks[..last]);
      assert Joined(toks)[Offset(toks, k)..Offset(toks, k + 1)]
          == Joined(toks[..last])[Offset(toks, k)..Offset(toks, k + 1)];
    } else {
      assert toks[..k + 1] == toks;
    }
  }

  /** No argument holds a NUL, so each string ends where its own NUL is. */
  lemma {:induction false} BodyNulFree(s: string, quoted: bool)
    requires NUL !in s
    ensures NUL !in Body(s, quoted).0 && NUL !in Body(s, quoted).1
    ensures NUL !in Escaped(s, quoted).0 && NUL !in Escaped(s, quoted).1
    decreases |s|
  {
    if s != [] {
      BodyNulFree(s[1..], quoted);
    }
  }

  lemma {:induction false} TokensNulFree(s: string, limit: nat)
    requires NUL !in s
    ensures forall k :: 0 <= k < |Tokens(s, limit)| ==> NUL !in Tokens(s, limit)[k]
    decreases |s|
  {
    if limit > 0 && s != [] {
      if s[0] == SPACE {
        TokensNulFree(s[1..], limit);
      } else {
        var r := if s[0] == QUOTE then Body(s[1..], true) else Body(s, false);
        BodyNulFree(if s[0] == QUOTE then s[1..] else s, s[0] == QUOTE);
        TokensNulFree(r.1, limit - 1);
      }
    }
  }

  /** Everything the loop knows, about values only. */
  ghost predicate Progress(input: string, limit: nat, buf: string, argv: seq<int>,
                           st: State, i: nat, out: nat, start: nat, done: seq<string>, cur: string)
  {
    && out <= i <= |input| && |buf| == |input|
    && |done| <= limit < |argv|
    && (st != InSpace ==> |done| < limit)
    && (st == InSpace ==> cur == "")
    && (st != InSpace ==> start == |Joined(done)|)
    && buf[..out] == Joined(done) + cur
    && buf[i..] == input[i..]
    && Tokens(input, limit) == done + Resume(st, cur, input[i..], limit - |done|)
    && (forall k :: 0 <= k < |done| ==> argv[k] == Offset(done, k))
  }

  /** A character was written over a place already read; what is still to be read is untouched. */
  lemma Overwrite(input: string, buf: string, i: nat, out: nat, c: char)
    requires out <= i < |input| == |buf| && buf[i..] == input[i..]
    ensures buf[out := c][i + 1..] == input[i + 1..]
    ensures buf[out := c][..out + 1] == buf[..out] + [c]
  {
    assert buf[out := c][i + 1..] == buf[i..][1..];
    assert input[i + 1..] == input[i..][1..];
  }

  lemma Offsets(done: seq<string>, t: string, argv: seq<int>, start: nat)
    requires |done| < |argv| && start == |Joined(done)|
    requires forall k :: 0 <= k < |done| ==> argv[k] == Offset(done, k)
    ensures forall k :: 0 <= k < |done| + 1 ==> argv[|done| := start][k] == Offset(done + [t], k)
  {
    assert (done + [t])[..|done|] == done;
    forall k | 0 <= k < |done| ensures argv[|done| := start][k] == Offset(done + [t], k) {
      assert (done + [t])[..k] == done[..k];
    }
  }

  /** The loop body, inside or between arguments. */
  lemma Continues(input: string, limit: nat, buf: string, argv: seq<int>,
                  st: State, i: nat, out: nat, start: nat, done: seq<string>, cur: string)
    requires Progress(input, limit, buf, argv, st, i, out, start, done, cur)
    requires |done| < limit && i < |input| && !Next(st, input[i]).2
    ensures var n := Next(st, input[i]);
            Progress(input, limit, if n.1.Some? then buf[out := n.1.value] else buf, argv, n.0, i + 1,
                     out + |Out(n.1)|, if st == InSpace then out else start, done, cur + Out(n.1))
  {
    hide Tokens, Resume, Joined;
    var n := Next(st, input[i]);
    assert [input[i]] + input[i + 1..] == input[i..];
    ResumeStep(st, cur, input[i], input[i + 1..], limit - |done|);
    assert buf[i..][1..] == buf[i + 1..] && input[i..][1..] == input[i + 1..];
    if n.1.Some? {
      Overwrite(input, buf, i, out, n.1.value);
      Assoc(Joined(done), cur, Out(n.1));
    } else {
      assert cur + [] == cur;
    }
    if st == InSpace {
      assert Joined(done) + "" == Joined(done);
    }
  }

  /** The loop body, at the end of an argument. */
  lemma Ends(input: string, limit: nat, buf: string, argv: seq<int>,
             st: State, i: nat, out: nat, start: nat, done: seq<string>, cur: string)
    requires Progress(input, limit, buf, argv, st, i, out, start, done, cur)
    requires |done| < limit && i < |input| && Next(st, input[i]).2
    ensures Progress(input, limit, buf[out := NUL], argv[|done| := start], InSpace, i + 1,
                     out + 1, start, done + [cur], "")
  {
    hide Tokens, Joined, Offset, Body, Escaped;
    assert [input[i]] + input[i + 1..] == input[i..];
    var rest := Resume(InSpace, "", input[i + 1..], limit - |done| - 1);
    ResumeStep(st, cur, input[i], input[i + 1..], limit - |done|);
    Assoc(done, [cur], rest);
    Overwrite(input, buf, i, out, NUL);
    JoinedAppend(done, cur);
    assert Joined(done) + cur + [NUL] + "" == Joined(done) + cur + [NUL];
    Offsets(done, cur, argv, start);
  }

  lemma Begins(input: string, limit: nat, argv: seq<int>)
    requires limit < |argv|
    ensures Progress(input, limit, input, argv, InSpace, 0, 0, 0, [], "")
  {
    assert input[0..] == input;
    assert [] + Tokens(input, limit) == Tokens(input, limit);
  }

  /** What the arguments are when the loop ends, an open one included, and how they lie. */
  lemma Finishes(input: string, limit: nat, buf: string, argv: seq<int>,
                 st: State, i: nat, out: nat, start: nat, done: seq<string>, cur: string)
    requires Progress(input, limit, buf, argv, st, i, out, start, done, cur)
    requires i == |input| || |done| == limit
    ensures out <= |buf| && |done| <= limit < |argv| && (st != InSpace ==> |done| < limit)
    ensures var toks := if st == InSpace then done else done + [cur];
            && Tokens(input, limit) == toks
            && Joined(toks) == buf[..out] + (if st == InSpace then [] else [NUL])
            && forall k :: 0 <= k < |toks| ==>
                             (if st == InSpace then argv else argv[|done| := start])[k] == Offset(toks, k)
  {
    hide Joined, Offset;
    if i == |input| {
      assert input[i..] == "";
      assert cur + "" == cur && [cur] + [] == [cur];
    }
    assert done + [] == done;
    if st == InSpace {
      assert Joined(done) + "" == Joined(done) && buf[..out] + [] == buf[..out];
    } else {
      JoinedAppend(done, cur);
      Offsets(done, cur, argv, start);
    }
  }

  /** The whole call; without room for even the null pointer the program writes outside argv (None). */
  method Split(line: array<char>, argv: array<int>, ghost n: nat) returns (r: Option<nat>)
    requires n < line.Length && line[n] == NUL && forall i :: 0 <= i < n ==> line[i] != NUL
    modifies line, argv
    ensures r == None <==> argv.Length == 0
    ensures r.Some? ==>
              var toks := Tokens(old(line[..n]), argv.Length - 1);
              && r.value == |toks| <= argv.Length - 1
              && argv[r.value] == -1
              && (forall k :: 0 <= k < r.value ==> argv[k] == Offset(toks, k))
              && |Joined(toks)| <= n + 1
              && line[..|Joined(toks)|] == Joined(toks)
    ensures line[n + 1..] == old(line[n + 1..])
  {
    hide Tokens, Joined, Offset;
    if argv.Length == 0 {
      return None;
    }
    var argc := SplitLine(line, argv, n);
    return Some(argc);
  }

  /**
   * Splits the line, which ends at the first NUL, at index n.  The arguments are exactly those of the
   * tokenizer on the original line; they lie one behind the other from the start of the buffer, each
   * with its NUL; argv holds where they start, followed by a null pointer (-1); and nothing behind the
   * end of the line is touched.
   */
  method SplitLine(line: array<char>, argv: array<int>, ghost n: nat) returns (argc: nat)
    requires n < line.Length && line[n] == NUL && forall i :: 0 <= i < n ==> line[i] != NUL
    requires argv.Length >= 1
    modifies line, argv
    ensures var toks := Tokens(old(line[..n]), argv.Length - 1);
            && argc == |toks| <= argv.Length - 1
            && argv[argc] == -1
            && (forall k :: 0 <= k < argc ==> argv[k] == Offset(toks, k))
            && |Joined(toks)| <= n + 1
            && line[..|Joined(toks)|] == Joined(toks)
    ensures line[n + 1..] == old(line[n + 1..])
  {
    hide Tokens, Joined, Offset, Progress, Next;
    ghost var input := line[..n];
    ghost var limit := argv.Length - 1;
    var st := InSpace;
    argc := 0;
    var start, out, i := 0, 0, 0;
    ghost var done: seq<string>, cur := [], "";
    Begins(input, limit, argv[..]);
    while argc < argv.Length - 1
      invariant argc == |done| <= limit && i <= n && line[n] == NUL && out <= i
      invariant Progress(input, limit, line[..n], argv[..], st, i, out, start, done, cur)
      invariant line[n + 1..] == old(line[n + 1..])
      invariant line[i..n] == input[i..]
      decreases n - i
    {
      var c := line[i];
      if c == NUL {
        break;
      }
      assert c == line[i..n][0] == input[i];
      assert line[i..n][1..] == line[i + 1..n] && input[i..][1..] == input[i + 1..];
      var (st', o, ends) := Next(st, c);
      ghost var buf, args := line[..n], argv[..];
      if ends {
        Ends(input, limit, buf, args, st, i, out, start, done, cur);
        argv[argc] := start;
        argc := argc + 1;
        done, cur := done + [cur], "";
        assert argv[..] == args[argc - 1 := start];
      } else {
        Continues(input, limit, buf, args, st, i, out, start, done, cur);
        if st == InSpace {
          start := out;
        }
        cur := cur + Out(o);
      }
      if o.Some? {
        line[out] := o.value;
        assert line[..n] == buf[out := o.value];
        out := out + 1;
      }
      st := st';
      i := i + 1;
    }
    Finishes(input, limit, line[..n], argv[..], st, i, out, start, done, cur);
    ghost var front, args := line[..n], argv[..];
    assert line[..out] == front[..out];
    argc := Terminate(line, argv, n, st != InSpace, out, start, argc);
    ghost var toks := if st == InSpace then done else done + [cur];
    assert line[..out + 1] == front[..out] + [NUL];
    forall k | 0 <= k < |toks| ensures argv[k] == Offset(toks, k) {
      assert argv[k] == (if st == InSpace then args else args[|done| := start])[k];
    }
    if st == InSpace {
      assert line[..out] == Joined(toks);
    }
  }

  /** The end of the last argument, the argument itself if it is still open, and the null pointer. */
  method Terminate(line: array<char>, argv: array<int>, ghost n: nat, open: bool, out: nat, start: nat, argc: nat)
    returns (argc': nat)
    requires out <= n < line.Length && argc < argv.Length && (open ==> argc < argv.Length - 1)
    modifies line, argv
    ensures argc' == (if open then argc + 1 else argc) < argv.Length
    ensures line[..out] == old(line[..out]) && line[out] == NUL && line[n + 1..] == old(line[n + 1..])
    ensures argv[argc'] == -1
    ensures forall k :: 0 <= k < argc' ==> argv[k] == if k == argc then start else old(argv[k])
  {
    line[out] := NUL;
    argc' := argc;
    if open && argc < argv.Length - 1 {
      argv[argc] := start;
      argc' := argc + 1;
    }
    argv[argc'] := -1;
  }
}
