/** One pass of the shell's command-line tokenizer. */
module Tokenizer {

  /** Outside quotes, inside double quotes, after a backslash inside double quotes, inside single quotes. */
  datatype Mode = Plain | Double | Backslash | Single

  /** How far a line has been read: the mode, the token being built, the finished tokens. */
  datatype Scan = Scan(mode: Mode, current: string, tokens: seq<string>)

  predicate Blank(c: char) { c == ' ' || c == '\t' }

  predicate Escapable(c: char) { c == '"' || c == '\\' }

  /** The token being built, unless it is empty. */
  function Finished(current: string): seq<string> { if current == "" then [] else [current] }

  function Push(st: Scan, text: string): Scan { st.(current := st.current + text) }

  /** What one character does, without looking ahead. */
  function Step(st: Scan, c: char): Scan {
    match st.mode
    case Plain =>
      if c == '"' then st.(mode := Double)
      else if c == '\'' then st.(mode := Single)
      else if Blank(c) then Scan(Plain, "", st.tokens + Finished(st.current))
      else Push(st, [c])
    case Double =>
      if c == '"' then st.(mode := Plain)
      else if c == '\\' then st.(mode := Backslash)
      else Push(st, [c])
    case Backslash => Push(st, if Escapable(c) then [c] else ['\\', c]).(mode := Double)
    case Single => if c == '\'' then st.(mode := Plain) else Push(st, [c])
  }

  /** The state after the first `n` characters. */
  function Read(st: Scan, s: string, n: nat): Scan
    requires n <= |s|
  {
    if n == 0 then st else Step(Read(st, s, n - 1), s[n - 1])
  }

  const START: Scan := Scan(Plain, "", [])

  /** The end of the line ends a token, and a last backslash stands for itself. */
  function Close(st: Scan): seq<string> {
    st.tokens + Finished(if st.mode.Backslash? then st.current + "\\" else st.current)
  }

  /** The tokens of a line. */
  function Tokenize(s: string): seq<string> { Close(Read(START, s, |s|)) }

  // ---------------------------------------------------------------- the loops

  /** Reading the line up to `i` has left this state. */
  ghost predicate At(s: string, i: nat, mode: Mode, current: string, tokens: seq<string>) {
    i <= |s| && Read(START, s, i) == Scan(mode, current, tokens)
  }

  /** Outside quotes again, or at the end of the line inside them. */
  ghost predicate AfterQuote(s: string, i: nat, current: string, tokens: seq<string>) {
    At(s, i, Plain, current, tokens) || (i == |s| && Tokenize(s) == tokens + Finished(current))
  }

  /** The rest of a double-quoted part. The loop pushes a backslash as soon as it sees what follows it. */
  method ReadDouble(s: string, from: nat, before: string, ghost tokens: seq<string>) returns (i: nat, current: string)
    requires At(s, from, Double, before, tokens)
    ensures from <= i <= |s| && AfterQuote(s, i, current, tokens)
  {
    i, current := from, before;
    ghost var settled, pending := before, false;
    while i < |s|
      invariant from <= i && At(s, i, if pending then Backslash else Double, settled, tokens)
      invariant current == if pending then settled + "\\" else settled
      invariant pending && i < |s| ==> !Escapable(s[i])
    {
      var c := s[i];
      i := i + 1;
      assert pending ==> settled + ['\\', c] == current + [c];
      if c == '\\' {
        if i < |s| && Escapable(s[i]) {
          current := current + [s[i]];
          i := i + 1;
          settled := current;
        } else {
          settled, pending := current, true;
          current := current + [c];
        }
      } else if c == '"' {
        return;
      } else {
        current := current + [c];
        settled, pending := current, false;
      }
    }
  }

  /** The rest of a single-quoted part. */
  method ReadSingle(s: string, from: nat, before: string, ghost tokens: seq<string>) returns (i: nat, current: string)
    requires At(s, from, Single, before, tokens)
    ensures from <= i <= |s| && AfterQuote(s, i, current, tokens)
  {
    i, current := from, before;
    while i < |s|
      invariant from <= i && At(s, i, Single, current, tokens)
    {
      var c := s[i];
      i := i + 1;
      if c == '\'' { return; }
      current := current + [c];
    }
  }

  method TokenizeCmdline(s: string) returns (tokens: seq<string>)
    ensures tokens == Tokenize(s)
  {
    var current, i := "", 0;
    tokens := [];
    while i < |s|
      invariant i <= |s| && AfterQuote(s, i, current, tokens)
    {
      var c := s[i];
      i := i + 1;
      if c == '"' {
        i, current := ReadDouble(s, i, current, tokens);
      } else if c == '\'' {
        i, current := ReadSingle(s, i, current, tokens);
      } else if Blank(c) {
        if current != "" {
          tokens := tokens + [current];
          current := "";
        }
      } else {
        current := current + [c];
      }
    }
    if current != "" {
      tokens := tokens + [current];
    }
  }

  // ---------------------------------------------------------------- reading one string after another

  /** Reading all of `s` leads from one state to the other. */
  ghost predicate Gives(st: Scan, s: string, out: Scan) {
    forall n: nat | n == |s| :: Read(st, s, n) == out
  }

  lemma {:induction false} ReadFirst(st: Scan, a: string, b: string, n: nat)
    requires n <= |a|
    ensures Read(st, a + b, n) == Read(st, a, n)
  {
    if n > 0 { ReadFirst(st, a, b, n - 1); }
  }

  lemma {:induction false} ReadSecond(st: Scan, a: string, mid: Scan, b: string, n: nat)
    requires n <= |b| && Read(st, a, |a|) == mid
    ensures Read(st, a + b, |a| + n) == Read(mid, b, n)
  {
    if n == 0 { ReadFirst(st, a, b, |a|); } else { ReadSecond(st, a, mid, b, n - 1); }
  }

  lemma Then(st: Scan, a: string, mid: Scan, b: string, out: Scan)
    requires Gives(st, a, mid) && Gives(mid, b, out)
    ensures Gives(st, a + b, out)
  {
    ReadSecond(st, a, mid, b, |b|);
  }

  lemma Nothing(st: Scan)
    ensures Gives(st, "", st)
  {
  }

  lemma One(st: Scan, c: char)
    ensures Gives(st, [c], Step(st, c))
  {
    assert Read(st, [c], 0) == st;
  }

  // ---------------------------------------------------------------- quoting

  /** A part of a word as it can be written on the command line. */
  datatype Part = Bare(text: string) | SingleQuoted(text: string) | DoubleQuoted(text: string)

  /** Every text can be double-quoted; the other two forms have characters they cannot hold. */
  predicate Writable(p: Part) {
    match p
    case Bare(t) => forall c | c in t :: c != '"' && c != '\'' && !Blank(c)
    case SingleQuoted(t) => '\'' !in t
    case DoubleQuoted(_) => true
  }

  type Piece = p: Part | Writable(p) witness Bare("")

  type Word = seq<Piece>

  /** A backslash before each double quote and each backslash. */
  function Escape(t: string): string {
    if t == "" then "" else Escape(t[..|t| - 1]) + EscapeChar(t[|t| - 1])
  }

  function EscapeChar(c: char): string { if Escapable(c) then ['\\', c] else [c] }

  function Written(p: Part): string {
    match p
    case Bare(t) => t
    case SingleQuoted(t) => "'" + t + "'"
    case DoubleQuoted(t) => "\"" + Escape(t) + "\""
  }

  function WrittenWord(w: Word): string {
    if w == [] then "" else WrittenWord(w[..|w| - 1]) + Written(w[|w| - 1])
  }

  function Text(w: Word): string { if w == [] then "" else Text(w[..|w| - 1]) + w[|w| - 1].text }

  /** The words with a blank after each. */
  function WrittenLine(ws: seq<Word>): string {
    if ws == [] then "" else WrittenLine(ws[..|ws| - 1]) + WrittenWord(ws[|ws| - 1]) + " "
  }

  function Texts(ws: seq<Word>): seq<string> {
    if ws == [] then [] else Texts(ws[..|ws| - 1]) + Finished(Text(ws[|ws| - 1]))
  }

  lemma PushPush(st: Scan, a: string, b: string)
    ensures Push(Push(st, a), b) == Push(st, a + b) && Push(st, "") == st
  {
    assert st.current + a + b == st.current + (a + b) && st.current + "" == st.current;
  }

  /** Characters that stand for themselves in the mode are pushed. */
  lemma {:induction false} ReadOrdinary(st: Scan, t: string)
    requires forall c | c in t :: Step(st, c) == Push(st, [c])
    requires st.mode.Plain? || st.mode.Single?
    ensures Gives(st, t, Push(st, t))
  {
    PushPush(st, "", "");
    if t == "" {
      Nothing(st);
    } else {
      var t', c := t[..|t| - 1], t[|t| - 1];
      assert t == t' + [c];
      assert Step(st, c) == Push(st, [c]);
      ReadOrdinary(st, t');
      One(Push(st, t'), c);
      PushPush(st, t', [c]);
      Then(st, t', Push(st, t'), [c], Push(st, t));
    }
  }

  lemma ReadEscapedChar(st: Scan, c: char)
    requires st.mode.Double?
    ensures Gives(st, EscapeChar(c), Push(st, [c]))
  {
    if Escapable(c) {
      One(st, '\\');
      One(Step(st, '\\'), c);
      Then(st, ['\\'], Step(st, '\\'), [c], Push(st, [c]));
      assert ['\\', c] == ['\\'] + [c];
    } else {
      One(st, c);
    }
  }

  /** Reading an escaped text inside double quotes pushes the text. */
  lemma {:induction false} ReadEscaped(st: Scan, t: string)
    requires st.mode.Double?
    ensures Gives(st, Escape(t), Push(st, t))
  {
    PushPush(st, "", "");
    if t == "" {
      Nothing(st);
    } else {
      var t', c := t[..|t| - 1], t[|t| - 1];
      assert t == t' + [c];
      ReadEscaped(st, t');
      ReadEscapedChar(Push(st, t'), c);
      PushPush(st, t', [c]);
      Then(st, Escape(t'), Push(st, t'), EscapeChar(c), Push(st, t));
    }
  }

  /** A quote, a text that is pushed, and the closing quote. */
  lemma ReadQuoted(st: Scan, q: char, mode: Mode, body: string, text: string)
    requires st.mode.Plain? && Step(st, q) == st.(mode := mode)
    requires Step(Push(st, text).(mode := mode), q) == Push(st, text)
    requires Gives(st.(mode := mode), body, Push(st, text).(mode := mode))
    ensures Gives(st, [q] + body + [q], Push(st, text))
  {
    One(st, q);
    Then(st, [q], st.(mode := mode), body, Push(st, text).(mode := mode));
    One(Push(st, text).(mode := mode), q);
    Then(st, [q] + body, Push(st, text).(mode := mode), [q], Push(st, text));
  }

  lemma ReadPiece(st: Scan, p: Piece)
    requires st.mode.Plain?
    ensures Gives(st, Written(p), Push(st, p.text))
  {
    match p
    case Bare(t) =>
      ReadOrdinary(st, t);
    case SingleQuoted(t) =>
      ReadOrdinary(st.(mode := Single), t);
      ReadQuoted(st, '\'', Single, t, t);
    case DoubleQuoted(t) =>
      ReadEscaped(st.(mode := Double), t);
      ReadQuoted(st, '"', Double, Escape(t), t);
  }

  lemma {:induction false} ReadWord(st: Scan, w: Word)
    requires st.mode.Plain?
    ensures Gives(st, WrittenWord(w), Push(st, Text(w)))
  {
    PushPush(st, "", "");
    if w == [] {
      Nothing(st);
    } else {
      var w', p := w[..|w| - 1], w[|w| - 1];
      ReadWord(st, w');
      ReadPiece(Push(st, Text(w')), p);
      PushPush(st, Text(w'), p.text);
      Then(st, WrittenWord(w'), Push(st, Text(w')), Written(p), Push(st, Text(w)));
    }
  }

  lemma {:induction false} ReadLine(ws: seq<Word>)
    ensures Gives(START, WrittenLine(ws), Scan(Plain, "", Texts(ws)))
  {
    if ws == [] {
      Nothing(START);
    } else {
      var ws', w := ws[..|ws| - 1], ws[|ws| - 1];
      ReadLine(ws');
      ReadLastWord(ws', w);
      var st := Scan(Plain, Text(w), Texts(ws'));
      One(st, ' ');
      Then(START, WrittenLine(ws') + WrittenWord(w), st, " ", Scan(Plain, "", Texts(ws)));
    }
  }

  lemma ReadLastWord(ws: seq<Word>, w: Word)
    requires Gives(START, WrittenLine(ws), Scan(Plain, "", Texts(ws)))
    ensures Gives(START, WrittenLine(ws) + WrittenWord(w), Scan(Plain, Text(w), Texts(ws)))
  {
    var st := Scan(Plain, "", Texts(ws));
    ReadWord(st, w);
    assert "" + Text(w) == Text(w);
    Then(START, WrittenLine(ws), st, WrittenWord(w), Scan(Plain, Text(w), Texts(ws)));
  }

  /** However the words are written, tokenizing gives back their texts, without the empty ones. */
  lemma TokenizeWritten(ws: seq<Word>, last: Word)
    ensures Tokenize(WrittenLine(ws) + WrittenWord(last)) == Texts(ws) + Finished(Text(last))
  {
    ReadLine(ws);
    ReadLastWord(ws, last);
    Closes(WrittenLine(ws) + WrittenWord(last), Scan(Plain, Text(last), Texts(ws)));
  }

  lemma Closes(s: string, st: Scan)
    requires Gives(START, s, st)
    ensures Tokenize(s) == Close(st)
  {
  }

  // ---------------------------------------------------------------- a list of strings, each double-quoted

  function Quote(t: string): string { "\"" + Escape(t) + "\"" }

  /** The strings quoted and joined with spaces. */
  function Join(ts: seq<string>): string {
    if ts == [] then ""
    else if |ts| == 1 then Quote(ts[0])
    else Join(ts[..|ts| - 1]) + " " + Quote(ts[|ts| - 1])
  }

  function NonEmpty(ts: seq<string>): seq<string> {
    if ts == [] then [] else NonEmpty(ts[..|ts| - 1]) + Finished(ts[|ts| - 1])
  }

  function Quoted(ts: seq<string>): seq<Word> { seq(|ts|, i requires 0 <= i < |ts| => [DoubleQuoted(ts[i])]) }

  lemma QuotedWord(t: string)
    ensures WrittenWord([DoubleQuoted(t)]) == Quote(t) && Text([DoubleQuoted(t)]) == t
  {
    var w: Word := [DoubleQuoted(t)];
    assert w[..0] == [];
  }

  lemma {:induction false} JoinIsWritten(ts: seq<string>)
    ensures Texts(Quoted(ts)) == NonEmpty(ts)
    ensures ts != [] ==> WrittenLine(Quoted(ts)) == Join(ts) + " "
  {
    if ts != [] {
      var ts', t := ts[..|ts| - 1], ts[|ts| - 1];
      assert Quoted(ts)[..|ts| - 1] == Quoted(ts');
      JoinIsWritten(ts');
      QuotedWord(t);
    }
  }

  lemma {:induction false} NonEmptyShrinks(ts: seq<string>)
    ensures |NonEmpty(ts)| <= |ts|
    ensures "" in ts ==> |NonEmpty(ts)| < |ts|
    ensures "" !in ts ==> NonEmpty(ts) == ts
  {
    if ts != [] {
      NonEmptyShrinks(ts[..|ts| - 1]);
      assert ts == ts[..|ts| - 1] + [ts[|ts| - 1]];
    }
  }

  /** Quoting, joining and tokenizing gives the list without its empty strings: itself just when it has none. */
  lemma QuoteRoundTrip(ts: seq<string>)
    ensures Tokenize(Join(ts)) == NonEmpty(ts)
    ensures Tokenize(Join(ts)) == ts <==> "" !in ts
  {
    if ts != [] {
      var ts', t := ts[..|ts| - 1], ts[|ts| - 1];
      JoinIsWritten(ts');
      QuotedWord(t);
      TokenizeWritten(Quoted(ts'), [DoubleQuoted(t)]);
      assert Join(ts) == WrittenLine(Quoted(ts')) + Quote(t);
    }
    NonEmptyShrinks(ts);
  }

  /** No token is ever empty. */
  lemma {:induction false} NoEmptyTokens(s: string, n: nat)
    requires n <= |s|
    ensures "" !in Read(START, s, n).tokens && "" !in Tokenize(s[..n])
  {
    if n > 0 { NoEmptyTokens(s, n - 1); }
    assert s == s[..n] + s[n..];
    ReadFirst(START, s[..n], s[n..], n);
  }
}
