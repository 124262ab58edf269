/** _cmd_split: cuts a command line into arguments inside its own buffer, with quotes and
    backslash escapes. */
module CmdSplit {
  import opened Wrappers

  /** The C locale's isspace. */
  predicate IsSpace(c: char) {
    c == ' ' || c == '\t' || c == '\n' || c == 11 as char || c == 12 as char || c == '\r'
  }

  const NUL := 0 as char

  // ----- The pure tokenizer -----

  /** Where the scan stands: outside or inside quotes (`quote` is the open quote or NUL), with
      or without a pending backslash; `open` tells whether an argument has begun. */
  datatype Mode = Mode(quote: char, escaped: bool, open: bool)

  const START := Mode(NUL, false, false)

  /** What a backslash followed by `c` stands for. */
  function Unescape(c: char): string {
    match c
    case 'n' => "\n"
    case 't' => "\t"
    case 'r' => "\r"
    case 'f' => [12 as char]
    case '"' => "\""
    case '\'' => "'"
    case '\\' => "\\"
    case _ => ['\\', c]
  }

  /** The characters an input character adds to the current argument, whether it ends it, and
      the mode after it. */
  datatype Reaction = Reaction(text: string, ends: bool, mode: Mode)

  function React(m: Mode, c: char): Reaction {
    if m.escaped then Reaction(Unescape(c), false, m.(escaped := false))
    else if c == '\\' then Reaction("", false, m.(escaped := true, open := true))
    else if m.quote == NUL && (c == '"' || c == '\'') then Reaction("", false, m.(quote := c, open := true))
    else if m.quote == NUL && IsSpace(c) then Reaction("", true, m.(open := false))
    else if m.quote == c then Reaction("", false, m.(quote := NUL))
    else Reaction([c], false, m.(open := true))
  }

  /** The arguments of `line`, `current` being the text of the argument under way. */
  function Tokens(line: string, m: Mode, current: string): seq<string> {
    if line == [] then (if m.open then [current] else [])
    else
      var r := React(m, line[0]);
      if r.ends then (if m.open then [current] else []) + Tokens(line[1..], r.mode, "")
      else Tokens(line[1..], r.mode, current + r.text)
  }

  function Split(line: string): seq<string> {
    Tokens(line, START, "")
  }

  /** How many characters a reaction writes; the space that ends an argument becomes its NUL. */
  function Put(r: Reaction): nat {
    if r.ends then 1 else |r.text|
  }

  /** How many characters the scan of `line` writes. */
  function Written(line: string, m: Mode): nat {
    if line == [] then 0 else var r := React(m, line[0]); Put(r) + Written(line[1..], r.mode)
  }

  /** Where the scan of `line` ends up. */
  function Final(line: string, m: Mode): Mode {
    if line == [] then m else Final(line[1..], React(m, line[0]).mode)
  }

  // ----- Lines whose last argument gets no terminator -----

  /** Nothing in the line is dropped: no quotes, no NUL, and only escapes that stand for
      themselves. */
  predicate Verbatim(line: string) {
    line == [] ||
    if line[0] == '\\' then |line| > 1 && |Unescape(line[1])| == 2 && Verbatim(line[2..])
    else line[0] != '"' && line[0] != '\'' && line[0] != NUL && Verbatim(line[1..])
  }

  lemma {:induction false} WrittenAtMost(line: string, m: Mode)
    ensures Written(line, m) <= |line| + (if m.escaped then 1 else 0)
  {
    if line != [] {
      WrittenAtMost(line[1..], React(m, line[0]).mode);
    }
  }

  /** The scan writes as much as it reads exactly when the line is verbatim. */
  lemma {:induction false} WrittenIsAll(line: string, m: Mode)
    requires m.quote == NUL && !m.escaped
    ensures Written(line, m) == |line| <==> Verbatim(line)
  {
    if line != [] {
      var r := React(m, line[0]);
      WrittenAtMost(line[1..], r.mode);
      if line[0] != '\\' {
        if r.mode.quote == NUL { WrittenIsAll(line[1..], r.mode); }
      } else if |line| > 1 {
        assert line[1..][0] == line[1] && line[1..][1..] == line[2..];
        WrittenAtMost(line[2..], React(r.mode, line[1]).mode);
        WrittenIsAll(line[2..], React(r.mode, line[1]).mode);
      } else {
        assert line[1..] == [];
      }
    }
  }

  /** The last argument reaches the end of the slice, where no terminator is written. */
  predicate Unterminated(line: string) {
    Verbatim(line) && Final(line, START).open
  }

  /** For a line without backslashes: it holds no quote and no NUL, and does not end in a space. */
  lemma {:induction false} PlainLine(line: string, m: Mode)
    requires '\\' !in line && m.quote == NUL && !m.escaped
    ensures Verbatim(line) <==> '"' !in line && '\'' !in line && NUL !in line
    ensures Verbatim(line) ==> Final(line, m) == m.(open := if line == "" then m.open else !IsSpace(line[|line| - 1]))
  {
    if line != [] {
      assert line == [line[0]] + line[1..];
      var next := React(m, line[0]).mode;
      PlainLine(line[1..], if next.quote == NUL then next else m);
    }
  }

  // ----- In place -----

  /** `argv[k]` before an argument has been stored there. */
  const NULL := -1

  /** Argument `t` starts at `start`, ends with a NUL, and lies wholly below `dst`. */
  ghost predicate Placed(b: seq<char>, start: int, t: string, dst: int) {
    && 0 <= start && start + |t| < dst <= |b|
    && b[start..start + |t|] == t && b[start + |t|] == NUL
  }

  ghost predicate AllPlaced(b: seq<char>, starts: seq<int>, ts: seq<string>, dst: int) {
    |ts| <= |starts| && forall k :: 0 <= k < |ts| ==> Placed(b, starts[k], ts[k], dst)
  }

  /** The argument under way occupies [start, dst). */
  ghost predicate Growing(b: seq<char>, start: int, current: string, dst: int) {
    if start == NULL then current == ""
    else 0 <= start <= dst <= |b| && b[start..dst] == current
  }

  /** A piece below `dst` is the same in two buffers that agree up to `dst`. */
  lemma PieceBelow(b: seq<char>, b': seq<char>, lo: int, hi: int, dst: int)
    requires 0 <= lo <= hi <= dst <= |b| == |b'| && b'[..dst] == b[..dst]
    ensures b'[lo..hi] == b[lo..hi] && (hi < dst ==> b'[hi] == b[hi])
  {
    assert b'[lo..hi] == b'[..dst][lo..hi] && b[lo..hi] == b[..dst][lo..hi];
    assert hi < dst ==> b'[hi] == b'[..dst][hi] && b[hi] == b[..dst][hi];
  }

  /** Writing at or above `dst` leaves what is below it alone. */
  lemma WritesAbove(b: seq<char>, b': seq<char>, starts: seq<int>, ts: seq<string>, start: int, current: string, dst: int, dst': int)
    requires |b| == |b'| && 0 <= dst <= dst' <= |b| && b'[..dst] == b[..dst]
    requires AllPlaced(b, starts, ts, dst) && Growing(b, start, current, dst)
    ensures AllPlaced(b', starts, ts, dst')
    ensures start != NULL ==> Growing(b', start, current + b'[dst..dst'], dst')
    ensures start == NULL ==> Growing(b', dst, b'[dst..dst'], dst')
  {
    forall k | 0 <= k < |ts|
      ensures Placed(b', starts[k], ts[k], dst')
    {
      assert Placed(b, starts[k], ts[k], dst);
      PieceBelow(b, b', starts[k], starts[k] + |ts[k]|, dst);
    }
    if start != NULL {
      PieceBelow(b, b', start, dst, dst);
      assert b'[start..dst'] == b'[start..dst] + b'[dst..dst'];
    }
  }

  /** A NUL written at `dst` finishes the argument under way. */
  lemma Finish(b: seq<char>, starts: seq<int>, ts: seq<string>, current: string, dst: int)
    requires AllPlaced(b, starts, ts, dst) && |ts| < |starts|
    requires starts[|ts|] != NULL && Growing(b, starts[|ts|], current, dst) && dst < |b| && b[dst] == NUL
    ensures AllPlaced(b, starts, ts + [current], dst + 1)
  {
    forall k | 0 <= k < |ts| + 1
      ensures Placed(b, starts[k], (ts + [current])[k], dst + 1)
    {
      if k < |ts| { assert Placed(b, starts[k], ts[k], dst); }
    }
  }

  lemma TokensStep(line: string, src: nat, m: Mode, current: string)
    requires src < |line|
    ensures var r := React(m, line[src]);
            Tokens(line[src..], m, current) ==
            if r.ends then (if m.open then [current] else []) + Tokens(line[src + 1..], r.mode, "")
            else Tokens(line[src + 1..], r.mode, current + r.text)
    ensures Written(line[src..], m) == Put(React(m, line[src])) + Written(line[src + 1..], React(m, line[src]).mode)
    ensures Final(line[src..], m) == Final(line[src + 1..], React(m, line[src]).mode)
  {
    assert line[src..][1..] == line[src + 1..];
  }

  /** The scan when it is about to read `line[src]`: the buffer, the argument offsets, the
      write position, the mode, the finished arguments and the one under way. */
  datatype Scan = Scan(b: seq<char>, starts: seq<int>, src: int, dst: int, mode: Mode, ts: seq<string>, current: string)

  /** The write position never overtakes the read position, with one character of slack while
      an escape is pending; what is unread is in its original form; and what is written is what
      the tokenizer has produced. */
  ghost predicate Scanning(line: string, s: Scan) {
    && |s.b| == |line| && |s.starts| == |line| + 1
    && 0 <= s.dst <= s.src <= |line| && (s.mode.escaped ==> s.dst < s.src)
    && s.b[s.src..] == line[s.src..]
    && 2 * |s.ts| + (if s.mode.open then 1 else 0) <= s.src
    && (s.mode.quote != NUL || s.mode.escaped ==> s.mode.open)
    && AllPlaced(s.b, s.starts, s.ts, s.dst)
    && (s.mode.open <==> s.starts[|s.ts|] != NULL) && Growing(s.b, s.starts[|s.ts|], s.current, s.dst)
    && (forall k :: |s.ts| < k < |s.starts| ==> s.starts[k] == NULL)
    && s.ts + Tokens(line[s.src..], s.mode, s.current) == Split(line)
    && s.dst + Written(line[s.src..], s.mode) == Written(line, START)
    && Final(line[s.src..], s.mode) == Final(line, START)
  }

  ghost function Scans(line: string): iset<Scan> {
    iset s: Scan | Scanning(line, s)
  }

  lemma ScanFacts(line: string, s: Scan)
    requires s in Scans(line)
    ensures |s.b| == |line| && |s.starts| == |line| + 1
    ensures 0 <= s.dst <= s.src <= |line| && (s.mode.escaped ==> s.dst < s.src)
    ensures s.src < |line| ==> s.b[s.src] == line[s.src]
    ensures 2 * |s.ts| + (if s.mode.open then 1 else 0) <= s.src
    ensures s.mode.open <==> s.starts[|s.ts|] != NULL
  {
    assert s.src < |line| ==> s.b[s.src..][0] == line[s.src..][0];
  }

  /** A character that only adds text to the argument under way, perhaps starting it. */
  lemma StepText(line: string, b: seq<char>, b': seq<char>, starts: seq<int>, starts': seq<int>, src: int, dst: int,
                 m: Mode, ts: seq<string>, current: string, r: Reaction)
    requires Scan(b, starts, src, dst, m, ts, current) in Scans(line)
    requires |b| == |line| == |b'| && 0 <= dst <= src < |line| && |ts| < |starts|
    requires r == React(m, line[src]) && !r.ends
    requires b'[..dst] == b[..dst] && b'[src + 1..] == b[src + 1..]
    requires dst + |r.text| <= src + 1 && b'[dst..dst + |r.text|] == r.text
    requires starts' == if m.open || !r.mode.open then starts else starts[|ts| := dst]
    ensures Scan(b', starts', src + 1, dst + |r.text|, r.mode, ts, current + r.text) in Scans(line)
  {
    hide Tokens, Split, Placed, Written, Final;
    TokensStep(line, src, m, current);
    WritesAbove(b, b', starts, ts, starts[|ts|], current, dst, dst + |r.text|);
    assert line[src..][1..] == line[src + 1..] && b[src..][1..] == b[src + 1..];
  }

  /** An unquoted space that finishes the argument under way. */
  lemma StepEnd(line: string, b: seq<char>, b': seq<char>, starts: seq<int>, src: int, dst: int,
                m: Mode, ts: seq<string>, current: string, r: Reaction)
    requires Scan(b, starts, src, dst, m, ts, current) in Scans(line)
    requires |b| == |line| == |b'| && 0 <= dst <= src < |line|
    requires r == React(m, line[src]) && r.ends && m.open
    requires b'[..dst] == b[..dst] && b'[src + 1..] == b[src + 1..] && b'[dst] == NUL
    ensures Scan(b', starts, src + 1, dst + 1, r.mode, ts + [current], "") in Scans(line)
  {
    TokensStep(line, src, m, current);
    WritesAbove(b, b', starts, ts, starts[|ts|], current, dst, dst);
    assert b'[dst..dst] == "" && current + "" == current;
    assert line[src..][1..] == line[src + 1..] && b[src..][1..] == b[src + 1..];
    Finish(b', starts, ts, current, dst);
    var rest := Tokens(line[src + 1..], r.mode, "");
    assert ts + ([current] + rest) == ts + [current] + rest;
  }

  /** An unquoted space between arguments. */
  lemma StepIdle(line: string, b: seq<char>, b': seq<char>, starts: seq<int>, src: int, dst: int,
                 m: Mode, ts: seq<string>, current: string, r: Reaction)
    requires Scan(b, starts, src, dst, m, ts, current) in Scans(line)
    requires |b| == |line| == |b'| && 0 <= dst <= src < |line|
    requires r == React(m, line[src]) && r.ends && !m.open
    requires b'[..dst] == b[..dst] && b'[src + 1..] == b[src + 1..]
    ensures Scan(b', starts, src + 1, dst + 1, r.mode, ts, "") in Scans(line)
  {
    TokensStep(line, src, m, current);
    WritesAbove(b, b', starts, ts, starts[|ts|], current, dst, dst + 1);
    assert line[src..][1..] == line[src + 1..] && b[src..][1..] == b[src + 1..];
    assert [] + Tokens(line[src + 1..], r.mode, "") == Tokens(line[src + 1..], r.mode, "");
  }

  /** The escape branch of the loop body. */
  method PutEscaped(buf: array<char>, len: nat, dst0: nat, c: char) returns (dst: nat)
    requires dst0 + 1 < len <= buf.Length
    modifies buf
    ensures dst == dst0 + |Unescape(c)|
    ensures buf[..dst0] == old(buf[..dst0]) && buf[dst0..dst] == Unescape(c)
    ensures (c == 'n' ==> buf[dst0..dst] == "\n") && (c == 't' ==> buf[dst0..dst] == "\t") && (c == 'r' ==> buf[dst0..dst] == "\r")
    ensures (c == 'f' ==> buf[dst0..dst] == [12 as char]) && (c == '"' || c == '\'' || c == '\\' ==> buf[dst0..dst] == [c])
    ensures c !in ['n', 't', 'r', 'f', '"', '\'', '\\'] ==> buf[dst0..dst] == ['\\', c]
    ensures forall k :: dst0 + 2 <= k < buf.Length ==> buf[k] == old(buf[k])
  {
    dst := dst0;
    if c == 'n' {
      buf[dst] := '\n'; dst := dst + 1;
    } else if c == 't' {
      buf[dst] := '\t'; dst := dst + 1;
    } else if c == 'r' {
      buf[dst] := '\r'; dst := dst + 1;
    } else if c == 'f' {
      buf[dst] := 12 as char; dst := dst + 1;
    } else if c == '"' {
      buf[dst] := '"'; dst := dst + 1;
    } else if c == '\'' {
      buf[dst] := '\''; dst := dst + 1;
    } else if c == '\\' {
      buf[dst] := '\\'; dst := dst + 1;
    } else {
      buf[dst] := '\\'; dst := dst + 1;
      buf[dst] := c; dst := dst + 1;
    }
  }

  /** The body of the loop: it carries out the reaction to one character on the buffer. */
  method ScanOne(buf: array<char>, argv: array<int>, len: nat, src: nat, dst0: nat, item0: nat, quote0: char, escaped0: bool,
                 ghost r: Reaction)
    returns (dst: nat, item: nat, quote: char, escaped: bool)
    requires dst0 <= src < len <= buf.Length && item0 < argv.Length && (escaped0 ==> dst0 < src)
    requires r == React(Mode(quote0, escaped0, argv[item0] != NULL), buf[src])
    modifies buf, argv
    ensures dst == dst0 + (if r.ends then 1 else |r.text|) && dst <= src + 1
    ensures forall k :: 0 <= k < dst0 || src < k < buf.Length ==> buf[k] == old(buf[k])
    ensures buf[dst0..dst] == if r.ends then [NUL] else r.text
    ensures argv[..] == if r.ends || old(argv[item0]) != NULL || !r.mode.open then old(argv[..]) else old(argv[..])[item0 := dst0]
    ensures item == if r.ends && old(argv[item0]) != NULL then item0 + 1 else item0
    ensures quote == r.mode.quote && escaped == r.mode.escaped
  {
    hide Tokens, Split;
    var c := buf[src];
    dst, item, quote, escaped := dst0, item0, quote0, escaped0;
    if escaped {
      escaped := false;
      dst := PutEscaped(buf, len, dst, c);
    } else if c == '\\' {
      escaped := true;
      Begin(argv, item, dst);
    } else if quote == NUL && (c == '"' || c == '\'') {
      quote := c;
      Begin(argv, item, dst);
    } else if quote == NUL && IsSpace(c) {
      buf[dst] := NUL;
      dst := dst + 1;
      if argv[item] != NULL {
        item := item + 1;
      }
    } else if quote == c {
      quote := NUL;
    } else {
      if dst < src {
        buf[dst] := buf[src];
      }
      Begin(argv, item, dst);
      dst := dst + 1;
    }
  }

  /** What the scan becomes, given what the loop body did to the buffer. */
  ghost function NextScan(s: Scan, r: Reaction, b': seq<char>, starts': seq<int>): Scan {
    if r.ends then Scan(b', starts', s.src + 1, s.dst + 1, r.mode, if s.mode.open then s.ts + [s.current] else s.ts, "")
    else Scan(b', starts', s.src + 1, s.dst + |r.text|, r.mode, s.ts, s.current + r.text)
  }

  lemma Step(line: string, s: Scan, r: Reaction, b': seq<char>, starts': seq<int>)
    requires s in Scans(line) && |s.b| == |line| == |b'| && 0 <= s.dst <= s.src < |line| && |s.ts| < |s.starts|
    requires r == React(s.mode, line[s.src])
    requires var dst' := s.dst + (if r.ends then 1 else |r.text|);
             dst' <= s.src + 1 && b'[s.dst..dst'] == if r.ends then [NUL] else r.text
    requires b'[..s.dst] == s.b[..s.dst] && b'[s.src + 1..] == s.b[s.src + 1..]
    requires starts' == if r.ends || s.mode.open || !r.mode.open then s.starts else s.starts[|s.ts| := s.dst]
    ensures NextScan(s, r, b', starts') in Scans(line)
  {
    hide Scans, Scanning, React, Tokens;
    if !r.ends {
      StepText(line, s.b, b', s.starts, starts', s.src, s.dst, s.mode, s.ts, s.current, r);
    } else {
      assert b'[s.dst] == b'[s.dst..s.dst + 1][0];
      if s.mode.open {
        StepEnd(line, s.b, b', s.starts, s.src, s.dst, s.mode, s.ts, s.current, r);
      } else {
        StepIdle(line, s.b, b', s.starts, s.src, s.dst, s.mode, s.ts, s.current, r);
      }
    }
  }

  lemma SamePieces(b: seq<char>, was: seq<char>, dst: nat, src: nat)
    requires dst <= src < |b| == |was| && forall k :: 0 <= k < dst || src < k < |b| ==> b[k] == was[k]
    ensures b[..dst] == was[..dst] && b[src + 1..] == was[src + 1..]
  {
  }

  lemma PieceOfSlice(buf: array<char>, len: nat, lo: nat, hi: nat)
    requires lo <= hi <= len <= buf.Length
    ensures buf[..len][lo..hi] == buf[lo..hi]
  {
  }

  /** The loop body together with the invariant it keeps. */
  method ScanNext(buf: array<char>, argv: array<int>, len: nat, src: nat, dst0: nat, item0: nat, quote0: char, escaped0: bool,
                  ghost line: string, ghost s: Scan)
    returns (dst: nat, item: nat, quote: char, escaped: bool, ghost s': Scan)
    requires src < len == |line| <= buf.Length && argv.Length == len + 1 && item0 == |s.ts| <= len
    requires s in Scans(line) && s.b == buf[..len] && s.starts == argv[..] && s.src == src && s.dst == dst0
    requires s.mode == Mode(quote0, escaped0, argv[item0] != NULL)
    modifies buf, argv
    ensures s' in Scans(line) && item == |s'.ts| <= len
    ensures s'.b == buf[..len] && s'.starts == argv[..] && s'.src == src + 1 && s'.dst == dst
    ensures s'.mode == Mode(quote, escaped, argv[item] != NULL)
    ensures forall k :: len <= k < buf.Length ==> buf[k] == old(buf[k])
  {
    hide Scans, Scanning, React;
    ScanFacts(line, s);
    ghost var r := React(s.mode, line[src]);
    dst, item, quote, escaped := ScanOne(buf, argv, len, src, dst0, item0, quote0, escaped0, r);
    ghost var b := buf[..len];
    PieceOfSlice(buf, len, dst0, dst);
    SamePieces(b, s.b, dst0, src);
    Step(line, s, r, b, argv[..]);
    s' := NextScan(s, r, buf[..len], argv[..]);
    ScanFacts(line, s');
  }

  /** An argument begins where the next character will be written, unless it already has. */
  method Begin(argv: array<int>, item: nat, dst: nat)
    requires item < argv.Length
    modifies argv
    ensures argv[..] == if old(argv[item]) == NULL then old(argv[..])[item := dst] else old(argv[..])
  {
    if argv[item] == NULL {
      argv[item] := dst;
    }
  }

  lemma FirstScan(line: string, s: Scan)
    requires s == Scan(line, seq(|line| + 1, _ => NULL), 0, 0, START, [], "")
    ensures s in Scans(line)
  {
    assert line[0..] == line;
  }

  /** _cmd_split. `buf` is the memory, its first `len` characters are the slice; `argv[k]` is the
      offset of argument k, or NULL. Each argument is followed by a NUL inside the slice, except
      the last one of a line that leaves it unterminated. */
  method CmdSplit(buf: array<char>, len: nat) returns (argv: array<int>, argc: nat)
    requires len <= buf.Length
    modifies buf
    ensures fresh(argv) && argv.Length == len + 1
    ensures argc == |Split(old(buf[..len]))| && 2 * argc <= len + 1
    ensures AllStored(old(buf[..len]), buf[..len], argv[..])
    ensures forall k :: argc <= k <= len ==> argv[k] == NULL
    ensures forall k :: len <= k < buf.Length ==> buf[k] == old(buf[k])
  {
    hide Scans, Scanning, Split, Tokens, AllStored;
    ghost var line := buf[..len];
    argv := new int[len + 1](_ => NULL);
    var src: nat, dst: nat, item: nat, quote, escaped := 0, 0, 0, NUL, false;
    ghost var s := Scan(line, argv[..], 0, 0, START, [], "");
    FirstScan(line, s);
    while src < len
      invariant 0 <= src <= len && item == |s.ts| <= len
      invariant s in Scans(line) && s.b == buf[..len] && s.starts == argv[..] && s.src == src && s.dst == dst
      invariant s.mode == Mode(quote, escaped, argv[item] != NULL)
      invariant forall k :: len <= k < buf.Length ==> buf[k] == old(buf[k])
    {
      dst, item, quote, escaped, s := ScanNext(buf, argv, len, src, dst, item, quote, escaped, line, s);
      src := src + 1;
    }
    ScanFacts(line, s);
    if dst < len {
      buf[dst] := NUL;
    }
    LastArgument(line, s, buf[..len]);
    if argv[item] != NULL {
      item := item + 1;
    }
    argc := item;
  }

  /** Argument `t` starts at `start` and is followed by a NUL or by the end of the slice. */
  ghost predicate Stored(b: seq<char>, start: int, t: string) {
    && 0 <= start && start + |t| <= |b|
    && b[start..start + |t|] == t && (start + |t| < |b| ==> b[start + |t|] == NUL)
  }

  /** All tokens of `line` are stored in the slice `b`, and only the last one may end where the
      slice does, which it does exactly when the line leaves it unterminated. */
  ghost predicate AllStored(line: string, b: seq<char>, starts: seq<int>) {
    var ts := Split(line);
    && |b| == |line| && |ts| <= |starts|
    && forall k :: 0 <= k < |ts| ==>
         Stored(b, starts[k], ts[k]) && (starts[k] + |ts[k]| == |b| <==> k == |ts| - 1 && Unterminated(line))
  }

  /** What the terminator written after the loop completes. */
  lemma LastArgument(line: string, s: Scan, b': seq<char>)
    requires s in Scans(line) && s.src == |line|
    requires b' == if s.dst < |line| then s.b[s.dst := NUL] else s.b
    ensures var ts := Split(line);
            && |ts| == |s.ts| + (if s.mode.open then 1 else 0) && 2 * |ts| <= |line| + 1
            && |ts| < |s.starts|
            && (forall k :: |ts| <= k < |s.starts| ==> s.starts[k] == NULL)
    ensures AllStored(line, b', s.starts)
  {
    var ts := Split(line);
    assert ts == s.ts + if s.mode.open then [s.current] else [];
    assert b'[..s.dst] == s.b[..s.dst];
    WrittenIsAll(line, START);
    forall k | 0 <= k < |ts|
      ensures Stored(b', s.starts[k], ts[k])
      ensures s.starts[k] + |ts[k]| == |line| <==> k == |ts| - 1 && Unterminated(line)
    {
      if k < |s.ts| {
        assert Placed(s.b, s.starts[k], s.ts[k], s.dst);
        WritesAbove(s.b, b', s.starts, s.ts, s.starts[|s.ts|], s.current, s.dst, s.dst);
        assert Placed(b', s.starts[k], s.ts[k], s.dst);
      } else {
        assert b'[s.starts[k]..s.dst] == s.b[s.starts[k]..s.dst];
      }
    }
  }

  // ----- What the arguments are -----

  /** The C string at offset `start` of the memory; without a NUL before the end of `mem` the
      reader runs on into what the model does not know. */
  function CString(mem: seq<char>, start: nat): Option<string>
    requires start <= |mem|
    decreases |mem| - start
  {
    if start == |mem| then None
    else if mem[start] == NUL then Some("")
    else
      match CString(mem, start + 1)
      case None => None
      case Some(t) => Some([mem[start]] + t)
  }

  function UpToNul(t: string): string {
    if t == "" || t[0] == NUL then "" else [t[0]] + UpToNul(t[1..])
  }

  /** What follows `t` in memory is a NUL. */
  predicate Ended(mem: seq<char>, end: nat) {
    end < |mem| && mem[end] == NUL
  }

  /** A piece of memory that a NUL follows reads back up to its own first NUL. */
  lemma {:induction false} EndedReadsBack(mem: seq<char>, start: nat, t: string)
    requires start + |t| <= |mem| && mem[start..start + |t|] == t && Ended(mem, start + |t|)
    ensures CString(mem, start) == Some(UpToNul(t))
    decreases |t|
  {
    if t != "" {
      assert mem[start] == mem[start..start + |t|][0] == t[0];
      assert mem[start + 1..start + |t|] == mem[start..start + |t|][1..] == t[1..];
      if t[0] != NUL {
        EndedReadsBack(mem, start + 1, t[1..]);
      }
    }
  }

  /** A piece of memory that no NUL follows never reads back as itself. */
  lemma {:induction false} OpenRunsOn(mem: seq<char>, start: nat, t: string)
    requires start + |t| <= |mem| && mem[start..start + |t|] == t && !Ended(mem, start + |t|)
    ensures CString(mem, start) != Some(t)
    decreases |t|
  {
    if t != "" {
      assert mem[start] == mem[start..start + |t|][0] == t[0];
      assert mem[start + 1..start + |t|] == mem[start..start + |t|][1..] == t[1..];
      OpenRunsOn(mem, start + 1, t[1..]);
      match CString(mem, start + 1)
      case None =>
      case Some(u) => assert ([mem[start]] + u)[1..] == u;
    }
  }

  lemma {:induction false} UpToNulIsWhole(t: string)
    ensures UpToNul(t) == t <==> NUL !in t
  {
    if t != "" {
      assert t == [t[0]] + t[1..];
      UpToNulIsWhole(t[1..]);
    }
  }

  lemma {:induction false} TokensWithoutNul(line: string, m: Mode, current: string)
    requires NUL !in line && NUL !in current
    ensures forall k :: 0 <= k < |Tokens(line, m, current)| ==> NUL !in Tokens(line, m, current)[k]
  {
    if line != [] {
      var r := React(m, line[0]);
      assert NUL !in line[1..];
      if r.ends {
        TokensWithoutNul(line[1..], r.mode, "");
      } else {
        assert NUL !in r.text;
        TokensWithoutNul(line[1..], r.mode, current + r.text);
      }
    }
  }

  /** Argument k of `line` can be read back as the C string it should be: its token holds no NUL,
      and if the slice leaves it unterminated then the memory behind the slice starts with one. */
  predicate ReadsWhole(line: string, mem: seq<char>, k: nat)
    requires k < |Split(line)|
  {
    NUL !in Split(line)[k] && (k < |Split(line)| - 1 || !Unterminated(line) || Ended(mem, |line|))
  }

  /** An argument reads back as its token exactly under that condition. */
  lemma ArgumentsReadBack(line: string, mem: seq<char>, starts: seq<int>, k: nat)
    requires |line| <= |mem| && AllStored(line, mem[..|line|], starts) && k < |Split(line)|
    ensures 0 <= starts[k] <= |mem|
    ensures CString(mem, starts[k]) == Some(Split(line)[k]) <==> ReadsWhole(line, mem, k)
  {
    hide Split, Unterminated, Tokens;
    var b, t, start := mem[..|line|], Split(line)[k], starts[k];
    assert Stored(b, start, t);
    assert mem[start..start + |t|] == b[start..start + |t|];
    assert start + |t| < |b| ==> mem[start + |t|] == b[start + |t|];
    if Ended(mem, start + |t|) {
      EndedReadsBack(mem, start, t);
      UpToNulIsWhole(t);
    } else {
      OpenRunsOn(mem, start, t);
    }
  }

  /** Every argument of a line without NULs reads back when a NUL follows the slice. */
  lemma CleanLineReadsBack(line: string, mem: seq<char>, k: nat)
    requires NUL !in line && Ended(mem, |line|) && k < |Split(line)|
    ensures ReadsWhole(line, mem, k)
  {
    TokensWithoutNul(line, START, "");
  }

  lemma EmptySplit()
    ensures Split("") == []
  {
  }

  /** The one place that splits: lines 1367-1380. A trailing newline makes room for a terminator
      behind the slice, and only then is it sure to be there. An empty slice means quit, which
      is called without arguments. */
  method CmdLine(buf: array<char>, len0: nat) returns (quit: bool, argv: array<int>, argc: nat, len: nat)
    requires len0 <= buf.Length
    modifies buf
    ensures quit <==> len0 == 0
    ensures len == if len0 > 0 && old(buf[len0 - 1]) == '\n' then len0 - 1 else len0
    ensures var line := old(buf[..len]);
            && argc == |Split(line)| <= len < argv.Length
            && (forall k :: argc <= k <= len ==> argv[k] == NULL)
            && forall k :: 0 <= k < argc ==>
                 && 0 <= argv[k] <= buf.Length
                 && (CString(buf[..], argv[k]) == Some(Split(line)[k]) <==> ReadsWhole(line, buf[..], k))
    ensures len < len0 ==> Ended(buf[..], len)
  {
    hide Split, AllStored, ReadsWhole, CString;
    len, quit := len0, len0 == 0;
    if quit {
      EmptySplit();
      argv, argc := new int[1](_ => NULL), 0;
      return;
    }
    if buf[len - 1] == '\n' {
      len := len - 1;
      buf[len] := NUL;
    }
    ghost var line := buf[..len];
    assert line == old(buf[..len]);
    argv, argc := CmdSplit(buf, len);
    forall k | 0 <= k < argc
      ensures 0 <= argv[k] <= buf.Length
      ensures CString(buf[..], argv[k]) == Some(Split(line)[k]) <==> ReadsWhole(line, buf[..], k)
    {
      assert buf[..][..len] == buf[..len] && argv[..][k] == argv[k];
      ArgumentsReadBack(line, buf[..], argv[..], k);
    }
  }

  /** An argument runs on: the line "a", without a newline, in front of a "b" in memory. */
  lemma LastArgumentRunsOn()
    ensures Split("a") == ["a"] && Unterminated("a") && AllStored("a", "a", [0, NULL])
    ensures CString(['a', 'b', NUL], 0) == Some("ab")
  {
    var a: string, none: string := "a", "";
    var after := Mode(NUL, false, true);
    assert React(START, a[0]) == Reaction(a, false, after);
    assert a[1..] == none && none + a == a;
    assert Tokens(a, START, none) == Tokens(a[1..], after, none + a) == Tokens(none, after, a) == [a];
    assert Final(a, START) == Final(a[1..], after) == Final(none, after) == after;
    assert Verbatim(none);
    assert a[0..0 + |a|] == a;
    var mem := ['a', 'b', NUL];
    assert CString(mem, 2) == Some(none);
    assert CString(mem, 1) == Some(['b'] + none) && ['a'] + (['b'] + none) == "ab";
  }

  /** An argument is cut short: a NUL between quotes, here with all the memory cleared behind. */
  lemma QuotedNulIsCut()
    ensures var line := ['"', NUL, '"'];
            Split(line) == [[NUL]] && AllStored(line, [NUL, NUL, '"'], [0, NULL, NULL, NULL])
    ensures CString([NUL, NUL, '"', NUL], 0) == Some("")
  {
    var q: string, none: string := ['"', NUL, '"'], "";
    assert q[1..] == [NUL, '"'] && q[1..][1..] == ['"'] && q[1..][1..][1..] == none;
    assert none + none == none && none + [NUL] == [NUL] && [NUL] + none == [NUL];
    assert Tokens(q, START, none) == Tokens(q[1..], INSIDE, none);
    assert Tokens(q[1..], INSIDE, none) == Tokens(['"'], INSIDE, [NUL]);
    assert Tokens(['"'], INSIDE, [NUL]) == Tokens(none, Mode(NUL, false, true), [NUL]);
    var b: string := [NUL, NUL, '"'];
    assert !Verbatim(q) && b[0..1] == [NUL];
  }

  // ----- Quoting -----

  function EscapeAll(a: string): string {
    if a == "" then ""
    else Escaped(a[0]) + EscapeAll(a[1..])
  }

  /** Arguments quoted and separated by spaces, as a user would type them. */
  function Quoted(args: seq<string>): string {
    if args == [] then ""
    else ['"'] + EscapeAll(args[0]) + ['"'] + (if |args| == 1 then "" else [' '] + Quoted(args[1..]))
  }

  const INSIDE := Mode('"', false, true)

  /** What EscapeAll makes of one character. */
  function Escaped(c: char): string {
    if c == '"' || c == '\\' then ['\\', c] else [c]
  }

  lemma EscapedCharInside(c: char, tail: string, current: string)
    ensures Tokens(Escaped(c) + tail, INSIDE, current) == Tokens(tail, INSIDE, current + [c])
  {
    var line := Escaped(c) + tail;
    if |Escaped(c)| == 2 {
      assert line[1..] == [c] + tail && line[1..][1..] == tail;
      assert React(INSIDE, '\\').mode == INSIDE.(escaped := true);
      assert current + "" == current;
    } else {
      assert line[1..] == tail;
    }
  }

  lemma {:induction false} EscapedInside(a: string, rest: string, current: string)
    ensures Tokens(EscapeAll(a) + rest, INSIDE, current) == Tokens(rest, INSIDE, current + a)
  {
    hide Tokens, Escaped;
    if a == "" {
      assert EscapeAll(a) + rest == rest && current + a == current;
    } else {
      var tail := EscapeAll(a[1..]) + rest;
      assert EscapeAll(a) + rest == Escaped(a[0]) + tail;
      assert current + [a[0]] + a[1..] == current + a;
      EscapedCharInside(a[0], tail, current);
      EscapedInside(a[1..], rest, current + [a[0]]);
    }
  }

  /** Splitting what has been quoted gives back any list of arguments, whatever they contain. */
  lemma {:induction false} SplitQuoted(args: seq<string>)
    ensures Split(Quoted(args)) == args
  {
    if args != [] {
      var a := args[0];
      var after := if |args| == 1 then "" else [' '] + Quoted(args[1..]);
      var line := Quoted(args);
      assert line[1..] == EscapeAll(a) + (['"'] + after);
      assert "" + a == a && a + "" == a;
      EscapedInside(a, ['"'] + after, "");
      assert (['"'] + after)[1..] == after;
      assert Tokens(['"'] + after, INSIDE, a) == Tokens(after, Mode(NUL, false, true), a);
      if |args| > 1 {
        assert after[1..] == Quoted(args[1..]);
        SplitQuoted(args[1..]);
        assert React(Mode(NUL, false, true), ' ') == Reaction("", true, START);
        assert Tokens(after, Mode(NUL, false, true), a) == [a] + Tokens(after[1..], START, "");
        assert args == [a] + args[1..];
      } else {
        assert args == [a];
      }
      assert React(START, '"') == Reaction("", false, INSIDE);
      var none: string := "";
      assert line[0] == '"' && none + none == none;
      assert Tokens(line, START, "") == Tokens(line[1..], INSIDE, "");
    }
  }
}
