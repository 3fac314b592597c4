/**
 What a command line says, without an automaton: blanks, characters that stand for themselves, quoted
 parts, and perhaps a quote left open at the end. Every line can be written so, and this is how it is read.
 */
module CommandLines {
  import opened Tokenizer

  /** Inside double quotes: a character, an escaped quote or backslash, a backslash before any other character. */
  datatype Item = Itself(c: char) | Escaped(c: char) | AfterBackslash(c: char)

  datatype Element = Space(c: char) | Unquoted(c: char) | Apostrophes(text: string) | Quotes(items: seq<Item>)

  /** How a line ends: outside quotes, or inside quotes that are never closed, perhaps after a backslash. */
  datatype Ending =
    | Closed
    | OpenApostrophe(text: string)
    | OpenQuotes(items: seq<Item>)
    | OpenBackslash(items: seq<Item>)

  predicate ItemOk(i: Item) { i.Escaped? <==> i.c == '"' || i.c == '\\' }

  ghost predicate ItemsOk(items: seq<Item>) { forall i | i in items :: ItemOk(i) }

  ghost predicate ElementOk(e: Element) {
    match e
    case Space(c) => c == ' ' || c == '\t'
    case Unquoted(c) => c != ' ' && c != '\t' && c != '"' && c != '\''
    case Apostrophes(t) => '\'' !in t
    case Quotes(items) => ItemsOk(items)
  }

  ghost predicate LineOk(es: seq<Element>, end: Ending) {
    && (forall e | e in es :: ElementOk(e))
    && match end
       case Closed => true
       case OpenApostrophe(t) => '\'' !in t
       case OpenQuotes(items) => ItemsOk(items)
       case OpenBackslash(items) => ItemsOk(items)
  }

  // ---------------------------------------------------------------- how it is written, and what it says

  function ItemWritten(i: Item): string { if i.Itself? then [i.c] else ['\\', i.c] }

  function ItemText(i: Item): string { if i.AfterBackslash? then ['\\', i.c] else [i.c] }

  function ItemsWritten(items: seq<Item>): string {
    if items == [] then "" else ItemsWritten(items[..|items| - 1]) + ItemWritten(items[|items| - 1])
  }

  function ItemsText(items: seq<Item>): string {
    if items == [] then "" else ItemsText(items[..|items| - 1]) + ItemText(items[|items| - 1])
  }

  function ElementWritten(e: Element): string {
    match e
    case Space(c) => [c]
    case Unquoted(c) => [c]
    case Apostrophes(t) => "'" + t + "'"
    case Quotes(items) => "\"" + ItemsWritten(items) + "\""
  }

  function ElementsWritten(es: seq<Element>): string {
    if es == [] then "" else ElementsWritten(es[..|es| - 1]) + ElementWritten(es[|es| - 1])
  }

  function EndingWritten(end: Ending): string {
    match end
    case Closed => ""
    case OpenApostrophe(t) => "'" + t
    case OpenQuotes(items) => "\"" + ItemsWritten(items)
    case OpenBackslash(items) => "\"" + ItemsWritten(items) + "\\"
  }

  function LineWritten(es: seq<Element>, end: Ending): string { ElementsWritten(es) + EndingWritten(end) }

  function ElementText(e: Element): string {
    match e
    case Space(_) => ""
    case Unquoted(c) => [c]
    case Apostrophes(t) => t
    case Quotes(items) => ItemsText(items)
  }

  function EndingText(end: Ending): string {
    match end
    case Closed => ""
    case OpenApostrophe(t) => t
    case OpenQuotes(items) => ItemsText(items)
    case OpenBackslash(items) => ItemsText(items) + "\\"
  }

  /** The text since the last blank. */
  function Current(es: seq<Element>): string {
    if es == [] || es[|es| - 1].Space? then "" else Current(es[..|es| - 1]) + ElementText(es[|es| - 1])
  }

  function OrNothing(text: string): seq<string> { if text == "" then [] else [text] }

  /** The texts between blanks, without the empty ones. */
  function Words(es: seq<Element>): seq<string> {
    if es == [] then []
    else if es[|es| - 1].Space? then Words(es[..|es| - 1]) + OrNothing(Current(es[..|es| - 1]))
    else Words(es[..|es| - 1])
  }

  // ---------------------------------------------------------------- reading it

  lemma ReadItem(st: Scan, i: Item)
    requires st.mode.Double? && ItemOk(i)
    ensures Gives(st, ItemWritten(i), Push(st, ItemText(i)))
  {
    if i.Itself? {
      One(st, i.c);
    } else {
      One(st, '\\');
      One(Step(st, '\\'), i.c);
      Then(st, ['\\'], Step(st, '\\'), [i.c], Push(st, ItemText(i)));
      assert ['\\', i.c] == ['\\'] + [i.c];
    }
  }

  lemma {:induction false} ReadItems(st: Scan, items: seq<Item>)
    requires st.mode.Double? && ItemsOk(items)
    ensures Gives(st, ItemsWritten(items), Push(st, ItemsText(items)))
  {
    PushPush(st, "", "");
    if items == [] {
      Nothing(st);
    } else {
      var items', i := items[..|items| - 1], items[|items| - 1];
      ReadItems(st, items');
      ReadItem(Push(st, ItemsText(items')), i);
      PushPush(st, ItemsText(items'), ItemText(i));
      Then(st, ItemsWritten(items'), Push(st, ItemsText(items')), ItemWritten(i), Push(st, ItemsText(items)));
    }
  }

  lemma ReadElement(st: Scan, e: Element)
    requires st.mode.Plain? && ElementOk(e) && !e.Space?
    ensures Gives(st, ElementWritten(e), Push(st, ElementText(e)))
  {
    match e
    case Unquoted(c) => One(st, c);
    case Apostrophes(t) =>
      ReadOrdinary(st.(mode := Single), t);
      ReadQuoted(st, '\'', Single, t, t);
    case Quotes(items) =>
      ReadItems(st.(mode := Double), items);
      ReadQuoted(st, '"', Double, ItemsWritten(items), ItemsText(items));
  }

  lemma ReadSpace(st: Scan, e: Element)
    requires st.mode.Plain? && ElementOk(e) && e.Space?
    ensures Gives(st, ElementWritten(e), Scan(Plain, "", st.tokens + OrNothing(st.current)))
  {
    One(st, e.c);
    assert Step(st, e.c) == Scan(Plain, "", st.tokens + OrNothing(st.current));
  }

  lemma {:induction false} ReadElements(es: seq<Element>)
    requires forall e | e in es :: ElementOk(e)
    ensures Gives(START, ElementsWritten(es), Scan(Plain, Current(es), Words(es)))
  {
    if es == [] {
      Nothing(START);
    } else {
      var es', e := es[..|es| - 1], es[|es| - 1];
      ReadElements(es');
      var mid := Scan(Plain, Current(es'), Words(es'));
      if e.Space? {
        ReadSpace(mid, e);
      } else {
        ReadElement(mid, e);
      }
      Then(START, ElementsWritten(es'), mid, ElementWritten(e), Scan(Plain, Current(es), Words(es)));
    }
  }

  /** What is open at the end still belongs to the last token. */
  lemma ReadEnding(st: Scan, end: Ending) returns (out: Scan)
    requires st.mode.Plain? && LineOk([], end)
    ensures Gives(st, EndingWritten(end), out)
    ensures Close(out) == st.tokens + OrNothing(st.current + EndingText(end))
  {
    match end
    case Closed =>
      Nothing(st);
      out := st;
      assert st.current + "" == st.current;
    case OpenApostrophe(t) =>
      out := Push(st, t).(mode := Single);
      One(st, '\'');
      ReadOrdinary(st.(mode := Single), t);
      Then(st, "'", st.(mode := Single), t, out);
    case OpenQuotes(items) =>
      out := ReadOpenQuotes(st, items);
    case OpenBackslash(items) =>
      var mid := ReadOpenQuotes(st, items);
      One(mid, '\\');
      out := mid.(mode := Backslash);
      Then(st, "\"" + ItemsWritten(items), mid, "\\", out);
      assert st.current + ItemsText(items) + "\\" == st.current + (ItemsText(items) + "\\");
  }

  lemma ReadOpenQuotes(st: Scan, items: seq<Item>) returns (out: Scan)
    requires st.mode.Plain? && ItemsOk(items)
    ensures out == Push(st, ItemsText(items)).(mode := Double)
    ensures Gives(st, "\"" + ItemsWritten(items), out)
  {
    out := Push(st, ItemsText(items)).(mode := Double);
    One(st, '"');
    ReadItems(st.(mode := Double), items);
    Then(st, "\"", st.(mode := Double), ItemsWritten(items), out);
  }

  /** A line's tokens are the texts between its blanks, without the empty ones; what is left open counts. */
  lemma LineReads(es: seq<Element>, end: Ending)
    requires LineOk(es, end)
    ensures Tokenize(LineWritten(es, end)) == Words(es) + OrNothing(Current(es) + EndingText(end))
  {
    ReadElements(es);
    var mid := Scan(Plain, Current(es), Words(es));
    var out := ReadEnding(mid, end);
    Then(START, ElementsWritten(es), mid, EndingWritten(end), out);
    Closes(LineWritten(es, end), out);
  }

  // ---------------------------------------------------------------- every line

  /** The line with one more character. */
  function OneMore(es: seq<Element>, end: Ending, c: char): (seq<Element>, Ending) {
    match end
    case Closed =>
      if c == '"' then (es, OpenQuotes([]))
      else if c == '\'' then (es, OpenApostrophe(""))
      else if c == ' ' || c == '\t' then (es + [Space(c)], Closed)
      else (es + [Unquoted(c)], Closed)
    case OpenApostrophe(t) =>
      if c == '\'' then (es + [Apostrophes(t)], Closed) else (es, OpenApostrophe(t + [c]))
    case OpenQuotes(items) =>
      if c == '"' then (es + [Quotes(items)], Closed)
      else if c == '\\' then (es, OpenBackslash(items))
      else (es, OpenQuotes(items + [Itself(c)]))
    case OpenBackslash(items) =>
      (es, OpenQuotes(items + [if c == '"' || c == '\\' then Escaped(c) else AfterBackslash(c)]))
  }

  lemma AppendElement(es: seq<Element>, e: Element)
    ensures ElementsWritten(es + [e]) == ElementsWritten(es) + ElementWritten(e)
  {
    assert (es + [e])[..|es|] == es;
  }

  lemma AppendItem(items: seq<Item>, i: Item)
    ensures ItemsWritten(items + [i]) == ItemsWritten(items) + ItemWritten(i)
  {
    assert (items + [i])[..|items|] == items;
  }

  /** Closing quotes, or one more element outside them. */
  lemma CloseWritten(es: seq<Element>, open: string, c: char, e: Element)
    requires ElementWritten(e) == open + [c]
    ensures LineWritten(es + [e], Closed) == ElementsWritten(es) + open + [c]
  {
    var all := es + [e];
    assert ElementsWritten(all) == ElementsWritten(es) + (open + [c]) by { AppendElement(es, e); }
    Flatten(ElementsWritten(es), open, c);
  }

  lemma Flatten(a: string, b: string, c: char)
    ensures a + (b + [c]) + "" == a + b + [c]
  {
  }

  /** One more character inside quotes. */
  lemma StayWritten(es: seq<Element>, end: Ending, end': Ending, c: char)
    requires EndingWritten(end') == EndingWritten(end) + [c]
    ensures LineWritten(es, end') == LineWritten(es, end) + [c]
  {
    Flatten(ElementsWritten(es), EndingWritten(end), c);
    assert LineWritten(es, end') + "" == LineWritten(es, end');
  }

  lemma OneMoreOutside(es: seq<Element>, c: char)
    requires LineOk(es, Closed)
    ensures var (es', end') := OneMore(es, Closed, c);
            LineOk(es', end') && LineWritten(es', end') == LineWritten(es, Closed) + [c]
  {
    if c == '"' {
      StayWritten(es, Closed, OpenQuotes([]), c);
    } else if c == '\'' {
      StayWritten(es, Closed, OpenApostrophe(""), c);
    } else {
      CloseWritten(es, "", c, if c == ' ' || c == '\t' then Space(c) else Unquoted(c));
      assert ElementsWritten(es) + "" == LineWritten(es, Closed);
    }
  }

  lemma OneMoreInApostrophes(es: seq<Element>, t: string, c: char)
    requires LineOk(es, OpenApostrophe(t))
    ensures var (es', end') := OneMore(es, OpenApostrophe(t), c);
            LineOk(es', end') && LineWritten(es', end') == LineWritten(es, OpenApostrophe(t)) + [c]
  {
    if c == '\'' {
      CloseWritten(es, "'" + t, c, Apostrophes(t));
    } else {
      StayWritten(es, OpenApostrophe(t), OpenApostrophe(t + [c]), c);
    }
  }

  lemma OneMoreInQuotes(es: seq<Element>, items: seq<Item>, c: char)
    requires LineOk(es, OpenQuotes(items))
    ensures var (es', end') := OneMore(es, OpenQuotes(items), c);
            LineOk(es', end') && LineWritten(es', end') == LineWritten(es, OpenQuotes(items)) + [c]
  {
    if c == '"' {
      CloseWritten(es, "\"" + ItemsWritten(items), c, Quotes(items));
    } else if c == '\\' {
      StayWritten(es, OpenQuotes(items), OpenBackslash(items), c);
    } else {
      AppendItem(items, Itself(c));
      StayWritten(es, OpenQuotes(items), OpenQuotes(items + [Itself(c)]), c);
    }
  }

  lemma Regroup(a: string, b: string, c: char, d: char)
    ensures a + (b + [c, d]) == a + b + [c] + [d]
  {
  }

  /** An item of two characters completes what was open after a backslash. */
  lemma CompleteItem(items: seq<Item>, i: Item)
    requires !i.Itself?
    ensures EndingWritten(OpenQuotes(items + [i])) == EndingWritten(OpenBackslash(items)) + [i.c]
  {
    AppendItem(items, i);
    Regroup("\"", ItemsWritten(items), '\\', i.c);
  }

  lemma OneMoreAfterBackslash(es: seq<Element>, items: seq<Item>, c: char)
    requires LineOk(es, OpenBackslash(items))
    ensures var (es', end') := OneMore(es, OpenBackslash(items), c);
            LineOk(es', end') && LineWritten(es', end') == LineWritten(es, OpenBackslash(items)) + [c]
  {
    var i := if c == '"' || c == '\\' then Escaped(c) else AfterBackslash(c);
    CompleteItem(items, i);
    StayWritten(es, OpenBackslash(items), OpenQuotes(items + [i]), c);
  }

  lemma OneMoreWritten(es: seq<Element>, end: Ending, c: char)
    requires LineOk(es, end)
    ensures var (es', end') := OneMore(es, end, c);
            LineOk(es', end') && LineWritten(es', end') == LineWritten(es, end) + [c]
  {
    match end
    case Closed => OneMoreOutside(es, c);
    case OpenApostrophe(t) => OneMoreInApostrophes(es, t, c);
    case OpenQuotes(items) => OneMoreInQuotes(es, items, c);
    case OpenBackslash(items) => OneMoreAfterBackslash(es, items, c);
  }

  ghost predicate Writes(s: string, es: seq<Element>, end: Ending) { LineOk(es, end) && LineWritten(es, end) == s }

  /** The same, kept folded. */
  ghost predicate WritesLine(s: string, es: seq<Element>, end: Ending) {
    forall t: string | t == s :: Writes(t, es, end)
  }

  lemma AddCharacter(s: string, es: seq<Element>, end: Ending, c: char) returns (es': seq<Element>, end': Ending)
    requires WritesLine(s, es, end)
    ensures WritesLine(s + [c], es', end')
  {
    assert Writes(s, es, end);
    OneMoreWritten(es, end, c);
    var next := OneMore(es, end, c);
    es', end' := next.0, next.1;
  }

  lemma NoCharacters()
    ensures WritesLine("", [], Closed)
  {
  }

  lemma {:induction false} WriteLine(s: string) returns (es: seq<Element>, end: Ending)
    ensures WritesLine(s, es, end)
  {
    if s == "" {
      NoCharacters();
      es, end := [], Closed;
    } else {
      var s', c := s[..|s| - 1], s[|s| - 1];
      es, end := WriteLine(s');
      es, end := AddCharacter(s', es, end, c);
      assert s == s' + [c];
    }
  }

  /** Every line can be written so, and its tokens are what it says. */
  lemma EveryLine(s: string) returns (es: seq<Element>, end: Ending)
    ensures LineOk(es, end) && LineWritten(es, end) == s
    ensures Tokenize(s) == Words(es) + OrNothing(Current(es) + EndingText(end))
  {
    es, end := WriteLine(s);
    assert Writes(s, es, end);
    LineReads(es, end);
  }
}
