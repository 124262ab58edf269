/** What _cmd_split makes of a line, in terms of how a user types arguments: bare, in either kind
    of quotes or in a mixture, with any of the escapes, and any spaces in between. */
module CmdQuoting {
  import opened CmdSplit

  /** The letters that stand for another character after a backslash, with that character. */
  const LETTERS: map<char, char> :=
    map['n' := '\n', 't' := '\t', 'r' := '\r', 'f' := 12 as char, '"' := '"', '\'' := '\'', '\\' := '\\']

  const SPACES: set<char> := {' ', '\t', '\n', 11 as char, 12 as char, '\r'}

  datatype Style = Bare | Single | Double

  /** One character of an argument as it is typed: itself, or behind a backslash. */
  datatype Item = Plain(c: char) | Escape(c: char)

  function Typed(i: Item): string {
    match i
    case Plain(c) => [c]
    case Escape(c) => ['\\', c]
  }

  function Meant(i: Item): string {
    match i
    case Plain(c) => [c]
    case Escape(c) => if c in LETTERS then [LETTERS[c]] else ['\\', c]
  }

  /** Behind a backslash anything goes; by itself, a character must not end or begin anything. */
  predicate Fits(i: Item, style: Style) {
    i.Escape? ||
    match style
    case Bare => i.c !in SPACES && i.c != '"' && i.c != '\'' && i.c != '\\' && i.c != NUL
    case Single => i.c != '\'' && i.c != '\\'
    case Double => i.c != '"' && i.c != '\\'
  }

  function TypedAll(items: seq<Item>): string {
    if items == [] then "" else Typed(items[0]) + TypedAll(items[1..])
  }

  function MeantAll(items: seq<Item>): string {
    if items == [] then "" else Meant(items[0]) + MeantAll(items[1..])
  }

  /** A stretch of an argument in one style. */
  datatype Stretch = Stretch(style: Style, items: seq<Item>)

  ghost predicate StretchOk(s: Stretch) {
    (s.style == Bare ==> s.items != []) && forall i :: 0 <= i < |s.items| ==> Fits(s.items[i], s.style)
  }

  function Quote(style: Style): string {
    match style
    case Bare => ""
    case Single => "'"
    case Double => "\""
  }

  function TypedStretch(s: Stretch): string {
    Quote(s.style) + TypedAll(s.items) + Quote(s.style)
  }

  function TypedArg(a: seq<Stretch>): string {
    if a == [] then "" else TypedStretch(a[0]) + TypedArg(a[1..])
  }

  function MeantArg(a: seq<Stretch>): string {
    if a == [] then "" else MeantAll(a[0].items) + MeantArg(a[1..])
  }

  /** An argument and the spaces behind it. */
  datatype Word = Word(arg: seq<Stretch>, after: string)

  ghost predicate AllSpaces(s: string) {
    forall i :: 0 <= i < |s| ==> s[i] in SPACES
  }

  ghost predicate WordOk(w: Word) {
    w.arg != [] && (forall i :: 0 <= i < |w.arg| ==> StretchOk(w.arg[i])) && AllSpaces(w.after)
  }

  function Line(words: seq<Word>): string {
    if words == [] then "" else TypedArg(words[0].arg) + words[0].after + Line(words[1..])
  }

  function Meanings(words: seq<Word>): seq<string> {
    if words == [] then [] else [MeantArg(words[0].arg)] + Meanings(words[1..])
  }

  // ----- Inside an argument -----

  /** The mode inside a stretch of this style. */
  function Inside(style: Style, open: bool): Mode {
    match style
    case Bare => Mode(NUL, false, open)
    case Single => Mode('\'', false, true)
    case Double => Mode('"', false, true)
  }

  lemma ItemRead(i: Item, style: Style, open: bool, tail: string, current: string)
    requires Fits(i, style)
    ensures Tokens(Typed(i) + tail, Inside(style, open), current) == Tokens(tail, Inside(style, true), current + Meant(i))
  {
    var line := Typed(i) + tail;
    if i.Escape? {
      assert line[1..] == [i.c] + tail && line[1..][1..] == tail;
      assert current + "" == current;
    } else {
      assert line[1..] == tail;
    }
  }

  lemma {:induction false} ItemsRead(items: seq<Item>, style: Style, open: bool, tail: string, current: string)
    requires forall i :: 0 <= i < |items| ==> Fits(items[i], style)
    ensures Tokens(TypedAll(items) + tail, Inside(style, open), current) ==
            Tokens(tail, Inside(style, open || items != []), current + MeantAll(items))
  {
    hide Tokens, Typed, Meant, Fits;
    if items == [] {
      assert TypedAll(items) + tail == tail && current + MeantAll(items) == current;
    } else {
      var rest := TypedAll(items[1..]) + tail;
      assert TypedAll(items) + tail == Typed(items[0]) + rest;
      assert current + Meant(items[0]) + MeantAll(items[1..]) == current + MeantAll(items);
      ItemRead(items[0], style, open, rest, current);
      ItemsRead(items[1..], style, true, tail, current + Meant(items[0]));
    }
  }

  lemma QuoteRead(style: Style, open: bool, tail: string, current: string)
    requires style != Bare
    ensures Tokens(Quote(style) + tail, Inside(Bare, open), current) == Tokens(tail, Inside(style, true), current)
    ensures Tokens(Quote(style) + tail, Inside(style, true), current) == Tokens(tail, Inside(Bare, true), current)
  {
    var line := Quote(style) + tail;
    assert line[1..] == tail && current + "" == current;
  }

  lemma StretchRead(s: Stretch, open: bool, tail: string, current: string)
    requires StretchOk(s)
    ensures Tokens(TypedStretch(s) + tail, Inside(Bare, open), current) == Tokens(tail, Inside(Bare, true), current + MeantAll(s.items))
  {
    hide Tokens;
    var inner, q := TypedAll(s.items), Quote(s.style);
    if s.style == Bare {
      assert TypedStretch(s) + tail == inner + tail;
      ItemsRead(s.items, Bare, open, tail, current);
    } else {
      assert TypedStretch(s) + tail == q + (inner + (q + tail));
      QuoteRead(s.style, open, inner + (q + tail), current);
      ItemsRead(s.items, s.style, true, q + tail, current);
      QuoteRead(s.style, true, tail, current + MeantAll(s.items));
    }
  }

  lemma {:induction false} ArgRead(a: seq<Stretch>, open: bool, tail: string, current: string)
    requires forall i :: 0 <= i < |a| ==> StretchOk(a[i])
    ensures Tokens(TypedArg(a) + tail, Inside(Bare, open), current) ==
            Tokens(tail, Inside(Bare, open || a != []), current + MeantArg(a))
  {
    hide Tokens, StretchOk, TypedStretch, MeantAll;
    if a == [] {
      assert TypedArg(a) + tail == tail && current + MeantArg(a) == current;
    } else {
      var rest := TypedArg(a[1..]) + tail;
      assert TypedArg(a) + tail == TypedStretch(a[0]) + rest;
      assert current + MeantAll(a[0].items) + MeantArg(a[1..]) == current + MeantArg(a);
      StretchRead(a[0], open, rest, current);
      ArgRead(a[1..], true, tail, current + MeantAll(a[0].items));
    }
  }

  // ----- Between arguments -----

  lemma {:induction false} SpacesRead(spaces: string, tail: string)
    requires AllSpaces(spaces)
    ensures Tokens(spaces + tail, START, "") == Tokens(tail, START, "")
  {
    if spaces == "" {
      assert spaces + tail == tail;
    } else {
      assert (spaces + tail)[1..] == spaces[1..] + tail && spaces[0] in SPACES;
      SpacesRead(spaces[1..], tail);
    }
  }

  lemma SpaceEnds(c: char, tail: string, current: string)
    requires c in SPACES
    ensures Tokens([c] + tail, Inside(Bare, true), current) == [current] + Tokens(tail, START, "")
  {
    assert ([c] + tail)[1..] == tail;
  }

  /** Every line reads as it was typed: in any style, every escape gives its character, a
      backslash before any other character stays, and any spaces separate. */
  lemma {:induction false} SplitTyped(before: string, words: seq<Word>)
    requires AllSpaces(before) && forall k :: 0 <= k < |words| ==> WordOk(words[k]) && (k < |words| - 1 ==> words[k].after != "")
    ensures Split(before + Line(words)) == Meanings(words)
    decreases |words|
  {
    hide Tokens, TypedArg, MeantArg, WordOk;
    SpacesRead(before, Line(words));
    if words == [] {
      EmptySplit();
    } else {
      var w, rest := words[0], words[1..];
      WordRead(w, Line(rest), rest == []);
      assert Line(words) == TypedArg(w.arg) + (w.after + Line(rest));
      SplitTyped("", rest);
      assert "" + Line(rest) == Line(rest);
    }
  }

  lemma WordRead(w: Word, rest: string, isLast: bool)
    requires WordOk(w) && (isLast ==> rest == "") && (!isLast ==> w.after != "")
    ensures Tokens(TypedArg(w.arg) + (w.after + rest), START, "") == [MeantArg(w.arg)] + Tokens(rest, START, "")
  {
    hide Tokens, StretchOk;
    var tail, meant := w.after + rest, MeantArg(w.arg);
    ArgRead(w.arg, false, tail, "");
    assert "" + meant == meant;
    if w.after == "" {
      LineEnds(meant);
      assert tail == "";
    } else {
      var more := w.after[1..];
      assert tail == [w.after[0]] + (more + rest);
      SpaceEnds(w.after[0], more + rest, meant);
      SpacesRead(more, rest);
    }
  }

  lemma LineEnds(current: string)
    ensures Tokens("", Inside(Bare, true), current) == [current] + Tokens("", START, "")
  {
  }

  // ----- By example -----

  lemma ItemsCons(i: Item, rest: seq<Item>)
    ensures TypedAll([i] + rest) == Typed(i) + TypedAll(rest) && MeantAll([i] + rest) == Meant(i) + MeantAll(rest)
  {
    assert ([i] + rest)[1..] == rest;
  }

  lemma ThreeItems(i: Item, j: Item, k: Item)
    ensures TypedAll([i, j, k]) == Typed(i) + (Typed(j) + Typed(k)) && MeantAll([i, j, k]) == Meant(i) + (Meant(j) + Meant(k))
  {
    hide TypedAll, MeantAll, Typed, Meant;
    NoItems();
    ItemsCons(k, []);
    assert [k] + [] == [k] && Typed(k) + "" == Typed(k) && Meant(k) + "" == Meant(k);
    ItemsCons(j, [k]);
    assert [j] + [k] == [j, k];
    ItemsCons(i, [j, k]);
    assert [i] + [j, k] == [i, j, k];
  }

  lemma NoItems()
    ensures TypedAll([]) == "" && MeantAll([]) == ""
  {
  }

  /** One escape between two letters. */
  lemma OneEscape(c: char, line: string, arg: string)
    requires line == ['a', '\\', c, 'b'] && arg == ['a'] + Meant(Escape(c)) + ['b']
    ensures Split(line) == [arg]
  {
    hide TypedAll, MeantAll, Meant;
    var items := [Plain('a'), Escape(c), Plain('b')];
    ThreeItems(Plain('a'), Escape(c), Plain('b'));
    assert Meant(Plain('a')) == ['a'] && Meant(Plain('b')) == ['b'] by { PlainMeant('a'); PlainMeant('b'); }
    assert TypedAll(items) == line && MeantAll(items) == arg;
    OneStretch(items);
  }

  lemma PlainMeant(c: char)
    ensures Meant(Plain(c)) == [c]
  {
  }

  lemma OneWord(w: Word)
    requires WordOk(w)
    ensures Split(TypedArg(w.arg) + w.after) == [MeantArg(w.arg)]
  {
    hide TypedArg, MeantArg, WordOk, Split;
    SplitTyped("", [w]);
    assert [w][1..] == [];
    assert Line([]) == "" && Meanings([]) == [];
    assert "" + Line([w]) == TypedArg(w.arg) + w.after;
    assert Meanings([w]) == [MeantArg(w.arg)] + [];
  }

  lemma OneStretch(items: seq<Item>)
    requires items != [] && forall i :: 0 <= i < |items| ==> Fits(items[i], Bare)
    ensures Split(TypedAll(items)) == [MeantAll(items)]
  {
    hide TypedAll, MeantAll, Fits;
    var line, arg := TypedAll(items), MeantAll(items);
    var stretches := [Stretch(Bare, items)];
    var words := [Word(stretches, "")];
    assert MeantArg(stretches) == arg by {
      assert stretches[1..] == [];
      assert MeantArg([]) == "" && arg + "" == arg;
    }
    assert TypedArg(stretches) == line by {
      assert stretches[1..] == [];
      assert TypedArg([]) == "" && "" + line + "" + "" == line;
    }
    OneWord(Word(stretches, ""));
    assert line + "" == line;
  }

  /** Each escape by name; any other character keeps its backslash. */
  lemma EscapesByName()
    ensures Split("a\\nb") == ["a\nb"] && Split("a\\tb") == ["a\tb"] && Split("a\\rb") == ["a\rb"]
    ensures Split("a\\fb") == [['a', 12 as char, 'b']]
    ensures Split("a\\\"b") == ["a\"b"] && Split("a\\'b") == ["a'b"] && Split("a\\\\b") == ["a\\b"]
    ensures Split("a\\xb") == ["a\\xb"] && Split("a\\ b") == ["a\\ b"]
  {
    OneEscape('n', "a\\nb", "a\nb");
    OneEscape('t', "a\\tb", "a\tb");
    OneEscape('r', "a\\rb", "a\rb");
    OneEscape('f', "a\\fb", ['a', 12 as char, 'b']);
    OneEscape('"', "a\\\"b", "a\"b");
    OneEscape('\'', "a\\'b", "a'b");
    OneEscape('\\', "a\\\\b", "a\\b");
    OneEscape('x', "a\\xb", "a\\xb");
    OneEscape(' ', "a\\ b", "a\\ b");
  }

  /** A character between two letters separates them exactly if it is one of the six spaces. */
  lemma SpacesByName(c: char)
    requires c != '"' && c != '\'' && c != '\\' && c != NUL
    ensures Split(['a', c, 'b']) ==
            if c == ' ' || c == '\t' || c == '\n' || c == 11 as char || c == 12 as char || c == '\r' then ["a", "b"]
            else [['a', c, 'b']]
  {
    var line := ['a', c, 'b'];
    assert line[1..] == [c, 'b'] && line[1..][1..] == ['b'] && line[1..][1..][1..] == [];
    var open, none: string := Mode(NUL, false, true), "";
    assert none + ['a'] == ['a'] && none + ['b'] == ['b'];
    assert Tokens(line, START, none) == Tokens([c, 'b'], open, ['a']);
    if IsSpace(c) {
      assert Tokens([c, 'b'], open, ['a']) == [['a']] + Tokens(['b'], START, none);
      assert Tokens(['b'], START, none) == Tokens([], open, ['b']) == [['b']];
    } else {
      assert ['a'] + [c] == ['a', c] && ['a', c] + ['b'] == ['a', c, 'b'];
      assert Tokens([c, 'b'], open, ['a']) == Tokens(['b'], open, ['a', c]) == Tokens([], open, ['a', c, 'b']);
    }
  }
}
