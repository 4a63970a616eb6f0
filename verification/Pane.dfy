/**
  * Terminal panes of tools/te-rs/src/ui.rs: the text a pane keeps, and the rows it shows.
  */
module Pane {
  import opened Bytes

  /** Longest line, in bytes of its UTF-8 form. */
  const MAX_LINE_BYTES: nat := 4096
  /** Stands for a byte that cannot be shown; three bytes of UTF-8. */
  const REPLACEMENT: char := '\U{FFFD}'

  const NEWLINE: byte := 10
  const RETURN: byte := 13
  const FORM_FEED: byte := 12

  function Width(c: char): nat {
    if c == REPLACEMENT then 3 else 1
  }

  function Size(line: string): nat {
    if line == [] then 0 else Size(line[..|line| - 1]) + Width(line[|line| - 1])
  }

  lemma {:induction false} SizeAdded(line: string, c: char)
    ensures Size(line + [c]) == Size(line) + Width(c)
  {
    assert (line + [c])[..|line|] == line;
  }

  predicate Erases(b: byte) {
    b == 8 || b == 127
  }

  predicate Shown(b: byte) {
    b != NEWLINE && b != RETURN && b != FORM_FEED && !Erases(b)
  }

  function Glyph(b: byte): char {
    if 32 <= b <= 126 then b as char else REPLACEMENT
  }

  // ----- A terminal without a scrollback limit -----

  datatype Text = Text(lines: seq<string>, current: string)

  function Finish(t: Text): Text {
    Text(t.lines + [t.current], [])
  }

  /** A line that has reached the limit is broken. */
  function Break(t: Text): Text {
    if Size(t.current) >= MAX_LINE_BYTES then Finish(t) else t
  }

  /** What a byte does before the line is measured. */
  function Edit(t: Text, b: byte): Text {
    if b == NEWLINE then Finish(t)
    else if b == RETURN then t.(current := [])
    else if b == FORM_FEED then Text([], [])
    else if Erases(b) then t.(current := if t.current == [] then [] else t.current[..|t.current| - 1])
    else t.(current := t.current + [Glyph(b)])
  }

  function Feed(t: Text, b: byte): Text {
    Break(Edit(t, b))
  }

  function Terminal(input: seq<byte>): Text {
    if input == [] then Text([], [])
    else Feed(Terminal(input[..|input| - 1]), input[|input| - 1])
  }

  /** The text is that of the bytes after the last form feed. */
  lemma {:induction false} FormFeedForgets(before: seq<byte>, after: seq<byte>)
    ensures Terminal(before + [FORM_FEED] + after) == Terminal(after)
    decreases |after|
  {
    var all := before + [FORM_FEED] + after;
    if after == [] {
      assert all[..|all| - 1] == before && all[|all| - 1] == FORM_FEED;
    } else {
      assert all[..|all| - 1] == before + [FORM_FEED] + after[..|after| - 1];
      assert all[|all| - 1] == after[|after| - 1];
      FormFeedForgets(before, after[..|after| - 1]);
    }
  }

  predicate Short(t: Text) {
    && Size(t.current) < MAX_LINE_BYTES
    && forall k | 0 <= k < |t.lines| :: Size(t.lines[k]) < MAX_LINE_BYTES + 3
  }

  lemma {:induction false} BreakIsShort(t: Text)
    requires Size(t.current) < MAX_LINE_BYTES + 3
    requires forall k | 0 <= k < |t.lines| :: Size(t.lines[k]) < MAX_LINE_BYTES + 3
    ensures Short(Break(t))
  {
    assert Size([]) == 0;
    hide Size;
  }

  /** The unfinished line is short, and a finished line exceeds the limit by two bytes at most. */
  lemma {:induction false} LinesAreBounded(input: seq<byte>)
    ensures Short(Terminal(input))
    decreases |input|
  {
    if input != [] {
      var front, b := input[..|input| - 1], input[|input| - 1];
      LinesAreBounded(front);
      FeedIsShort(Terminal(front), b);
    } else {
      assert Size([]) == 0;
    }
  }

  lemma {:induction false} FeedIsShort(t: Text, b: byte)
    requires Short(t)
    ensures Short(Feed(t, b))
  {
    hide Size;
    EditedSize(t, b);
    BreakIsShort(Edit(t, b));
  }

  lemma {:induction false} EditedSize(t: Text, b: byte)
    ensures Size(Edit(t, b).current) <= Size(t.current) + 3
  {
    assert Size([]) == 0;
    SizeAdded(t.current, Glyph(b));
    if t.current != [] {
      assert Size(t.current) == Size(t.current[..|t.current| - 1]) + Width(t.current[|t.current| - 1]);
    }
    hide Size;
  }

  /** Erasing undoes the character before it. */
  lemma {:induction false} EraseUndoes(input: seq<byte>, b: byte, erase: byte)
    requires Shown(b) && Erases(erase)
    requires Size(Terminal(input).current) + Width(Glyph(b)) < MAX_LINE_BYTES
    ensures Terminal(input + [b] + [erase]) == Terminal(input)
  {
    hide Size;
    var t, one := Terminal(input), input + [b];
    assert one[..|one| - 1] == input && (one + [erase])[..|one|] == one;
    SizeAdded(t.current, Glyph(b));
    assert Terminal(one) == t.(current := t.current + [Glyph(b)]);
    assert (t.current + [Glyph(b)])[..|t.current|] == t.current;
  }

  /** Erasing where there is nothing does nothing. */
  lemma {:induction false} EraseNothing(input: seq<byte>, erase: byte)
    requires erase == 8 || erase == 127
    requires Terminal(input).current == []
    ensures Terminal(input + [erase]) == Terminal(input)
  {
    assert (input + [erase])[..|input|] == input;
    assert Size([]) == 0;
  }

  /** A newline ends the line, whatever it holds. */
  lemma {:induction false} NewlineEndsLine(input: seq<byte>)
    ensures Terminal(input + [10]) == Text(Terminal(input).lines + [Terminal(input).current], [])
  {
    assert (input + [10])[..|input|] == input;
    assert Size([]) == 0;
  }

  // ----- What the bytes show -----

  /** Bytes of UTF-8 that a run of shown bytes takes. */
  function Cost(input: seq<byte>): nat {
    if input == [] then 0
    else Cost(input[..|input| - 1]) + if 32 <= input[|input| - 1] <= 126 then 1 else 3
  }

  /** Neither a line end, nor a return, form feed, backspace or delete. */
  predicate Showable(input: seq<byte>) {
    forall k | 0 <= k < |input| :: input[k] !in {8, 10, 12, 13, 127}
  }

  /** ASCII bytes show themselves, any other byte the replacement character. */
  predicate Spells(line: string, input: seq<byte>) {
    && |line| == |input|
    && forall k | 0 <= k < |input| :: line[k] as int == if 32 <= input[k] <= 126 then input[k] as int else 0xFFFD
  }

  lemma {:induction false} SpellsMore(line: string, input: seq<byte>, b: byte)
    requires Spells(line, input)
    ensures Spells(line + [Glyph(b)], input + [b])
    ensures Width(Glyph(b)) == if 32 <= b <= 126 then 1 else 3
  {
  }

  lemma {:induction false} FeedShows(t: Text, b: byte)
    requires Shown(b)
    ensures var size := Size(t.current) + if 32 <= b <= 126 then 1 else 3;
            && (size < 4096 ==> Feed(t, b) == Text(t.lines, t.current + [Glyph(b)]))
            && (size >= 4096 ==> Feed(t, b) == Text(t.lines + [t.current + [Glyph(b)]], []))
            && Size(t.current + [Glyph(b)]) == size
  {
    hide Size;
    SizeAdded(t.current, Glyph(b));
  }

  /** From an empty line, shown bytes that take less than 4096 stand on it, and nothing else changes. */
  lemma {:induction false} LineIsShown(before: seq<byte>, input: seq<byte>)
    requires Terminal(before).current == [] && Showable(input) && Cost(input) < 4096
    ensures var t := Terminal(before + input);
            t.lines == Terminal(before).lines && Spells(t.current, input) && Size(t.current) == Cost(input)
    decreases |input|
  {
    hide Size, Spells, Terminal, Feed;
    if input == [] {
      assert before + [] == before;
      NothingShown();
    } else {
      var front, b := input[..|input| - 1], input[|input| - 1];
      LineIsShown(before, front);
      LastByte(before, input);
      var t := Terminal(before + front);
      SpellsMore(t.current, front, b);
      FeedShows(t, b);
      assert front + [b] == input;
    }
  }

  lemma {:induction false} LastByte(before: seq<byte>, input: seq<byte>)
    requires input != []
    ensures var all, front := before + input, input[..|input| - 1];
            all[..|all| - 1] == before + front && all[|all| - 1] == input[|input| - 1]
            && Terminal(all) == Feed(Terminal(before + front), input[|input| - 1])
  {
    var all, front := before + input, input[..|input| - 1];
    assert all[..|all| - 1] == before + front;
  }

  lemma {:induction false} NothingShown()
    ensures Spells([], []) && Size([]) == 0
  {
  }

  /** The byte with which they reach 4096 ends the line. */
  lemma {:induction false} LongLineBreaks(before: seq<byte>, input: seq<byte>) returns (line: string)
    requires Terminal(before).current == [] && Showable(input) && input != []
    requires Cost(input[..|input| - 1]) < 4096 <= Cost(input)
    ensures Terminal(before + input) == Text(Terminal(before).lines + [line], []) && Spells(line, input)
  {
    hide Size, Spells, Terminal, Feed;
    var front, b := input[..|input| - 1], input[|input| - 1];
    LineIsShown(before, front);
    LastByte(before, input);
    var t := Terminal(before + front);
    SpellsMore(t.current, front, b);
    FeedShows(t, b);
    assert front + [b] == input;
    line := t.current + [Glyph(b)];
  }

  lemma {:induction false} SameFromHere(a: seq<byte>, b: seq<byte>, more: seq<byte>)
    requires Terminal(a) == Terminal(b)
    ensures Terminal(a + more) == Terminal(b + more)
    decreases |more|
  {
    if more == [] {
      assert a + more == a && b + more == b;
    } else {
      SameFromHere(a, b, more[..|more| - 1]);
      LastByte(a, more);
      LastByte(b, more);
    }
  }

  /** Bytes before a carriage return on an unfinished line do not matter. */
  lemma {:induction false} ReturnRestarts(before: seq<byte>, line: seq<byte>, more: seq<byte>)
    requires Terminal(before).current == [] && Showable(line) && Cost(line) < 4096
    ensures Terminal(before + line + [13] + more) == Terminal(before + more)
  {
    LineIsShown(before, line);
    LastByte(before + line, [13]);
    assert [13 as byte][..0] == [] && before + line + [] == before + line;
    assert Size([]) == 0;
    SameFromHere(before + line + [13], before, more);
  }

  function WithoutNewlines(input: seq<byte>): seq<byte> {
    if input == [] then []
    else WithoutNewlines(input[..|input| - 1]) + if input[|input| - 1] == 10 then [] else [input[|input| - 1]]
  }

  /** All the text of ASCII bytes and newlines is those bytes without the newlines. */
  lemma {:induction false} AsciiIsKept(input: seq<byte>)
    requires forall k | 0 <= k < |input| :: input[k] == 10 || 32 <= input[k] <= 126
    ensures Spells(AllText(Terminal(input)), WithoutNewlines(input))
  {
    TextIsKept(input);
    GlyphsSpell(input);
  }

  lemma {:induction false} GlyphsSpell(input: seq<byte>)
    requires forall k | 0 <= k < |input| :: input[k] == 10 || 32 <= input[k] <= 126
    ensures Spells(Glyphs(input), WithoutNewlines(input))
    decreases |input|
  {
    if input != [] {
      var front, b := input[..|input| - 1], input[|input| - 1];
      GlyphsSpell(front);
      SpellsMore(Glyphs(front), WithoutNewlines(front), b);
    }
  }

  // ----- Nothing is lost -----

  function Joined(lines: seq<string>): string {
    if lines == [] then [] else Joined(lines[..|lines| - 1]) + lines[|lines| - 1]
  }

  function AllText(t: Text): string {
    Joined(t.lines) + t.current
  }

  /** The glyphs of the bytes that are not line ends. */
  function Glyphs(input: seq<byte>): string {
    if input == [] then []
    else
      var front, b := Glyphs(input[..|input| - 1]), input[|input| - 1];
      if b == NEWLINE then front else front + [Glyph(b)]
  }

  lemma {:induction false} FinishKeepsText(t: Text)
    ensures AllText(Finish(t)) == AllText(t) && AllText(Break(t)) == AllText(t)
  {
    var lines := t.lines + [t.current];
    assert lines[..|lines| - 1] == t.lines;
    assert Joined(lines) + [] == Joined(t.lines) + t.current;
  }

  /** Text without editing bytes is all kept, in order, whatever line breaks are added. */
  lemma {:induction false} TextIsKept(input: seq<byte>)
    requires forall k | 0 <= k < |input| :: input[k] == NEWLINE || Shown(input[k])
    ensures AllText(Terminal(input)) == Glyphs(input)
    decreases |input|
  {
    if input != [] {
      var front, b := input[..|input| - 1], input[|input| - 1];
      TextIsKept(front);
      var t := Terminal(front);
      var u := t.(current := t.current + [Glyph(b)]);
      FinishKeepsText(t);
      FinishKeepsText(Finish(t));
      FinishKeepsText(u);
      assert Joined(t.lines) + (t.current + [Glyph(b)]) == AllText(t) + [Glyph(b)];
    }
  }

  // ----- The scrollback -----

  function Last<T>(limit: nat, s: seq<T>): (r: seq<T>)
    ensures |r| == if |s| < limit then |s| else limit
  {
    if |s| <= limit then s else s[|s| - limit..]
  }

  lemma {:induction false} LastIsSuffix<T>(limit: nat, s: seq<T>)
    ensures s == s[..|s| - |Last(limit, s)|] + Last(limit, s)
  {
  }

  lemma {:induction false} LastAdded<T>(limit: nat, s: seq<T>, x: T)
    ensures Last(limit, Last(limit, s) + [x]) == Last(limit, s + [x])
  {
  }

  // ----- The rows shown -----

  /** All rows a pane could show. */
  function Rows(lines: seq<string>, current: string): seq<string> {
    if current == [] then lines else lines + [current]
  }

  function Minus(a: nat, b: nat): nat {
    if a < b then 0 else a - b
  }

  /** Rows left for finished lines. */
  function Complete(current: string, height: nat): nat {
    Minus(height, if current == [] then 0 else 1)
  }

  function Visible(lines: seq<string>, current: string, scrollOffset: nat, height: nat): seq<string> {
    var end := Minus(|lines|, scrollOffset);
    var rows := lines[Minus(end, Complete(current, height))..end];
    if scrollOffset == 0 && current != [] && |rows| < height then rows + [current] else rows
  }

  /** Line `k` is among the rows shown. */
  predicate InView(lines: seq<string>, current: string, scrollOffset: nat, height: nat, k: nat) {
    k + scrollOffset < |lines| <= k + scrollOffset + Complete(current, height)
  }

  /**
    * Unscrolled, the last `height` rows are shown. Scrolled, the last rows before the offset are,
    * one fewer while a line is unfinished.
    */
  lemma {:induction false} VisibleIsWindow(lines: seq<string>, current: string, scrollOffset: nat, height: nat)
    ensures var shown := Visible(lines, current, scrollOffset, height);
            && |shown| <= height
            && shown == if scrollOffset == 0 then Last(height, Rows(lines, current))
                        else Last(if current != [] && height > 0 then height - 1 else height,
                                  if scrollOffset < |lines| then lines[..|lines| - scrollOffset] else [])
  {
    hide Last;
    var end := Minus(|lines|, scrollOffset);
    SliceIsLast(lines, end, Complete(current, height));
    assert lines[..|lines|] == lines;
    if scrollOffset == 0 && current != [] && height > 0 {
      LastOneMore(height, lines, current);
    }
    if height == 0 {
      LastNone(Rows(lines, current));
    }
  }

  lemma {:induction false} SliceIsLast(lines: seq<string>, end: nat, n: nat)
    requires end <= |lines|
    ensures lines[Minus(end, n)..end] == Last(n, lines[..end])
  {
  }

  lemma {:induction false} LastOneMore(n: nat, lines: seq<string>, row: string)
    requires n > 0
    ensures Last(n, lines + [row]) == Last(n - 1, lines) + [row]
  {
  }

  lemma {:induction false} LastNone(rows: seq<string>)
    ensures Last(0, rows) == []
  {
  }

  /** The lines in view, by position, are the rows shown, in order; then the unfinished line may follow. */
  lemma {:induction false} ViewIsVisible(lines: seq<string>, current: string, scrollOffset: nat, height: nat)
    ensures var shown := Visible(lines, current, scrollOffset, height);
            var from := Minus(Minus(|lines|, scrollOffset), Complete(current, height));
            && (forall k: nat | InView(lines, current, scrollOffset, height, k) ::
                  from <= k < from + |shown| && shown[k - from] == lines[k])
            && (forall row | 0 <= row < |shown| ::
                  InView(lines, current, scrollOffset, height, from + row) ||
                  (scrollOffset == 0 && row == |shown| - 1 && shown[row] == current != []))
  {
  }

  /** A search scrolls the line it finds into view if and only if there is a row for finished lines. */
  lemma {:induction false} FoundLineIsVisible(lines: seq<string>, current: string, index: nat, height: nat)
    requires index < |lines|
    ensures InView(lines, current, |lines| - (index + 1), height, index) <==> Complete(current, height) >= 1
    ensures Complete(current, height) >= 1 ==> lines[index] in Visible(lines, current, |lines| - (index + 1), height)
    ensures Complete(current, height) == 0 && index + 1 < |lines| ==>
              Visible(lines, current, |lines| - (index + 1), height) == []
  {
    var offset := |lines| - (index + 1);
    ViewIsVisible(lines, current, offset, height);
  }

  /** The oldest line is in view when at least one finished line is scrolled to, and no more than there are rows. */
  lemma {:induction false} OldestInView(lines: seq<string>, current: string, scrollOffset: nat, height: nat)
    ensures InView(lines, current, scrollOffset, height, 0) <==>
            scrollOffset < |lines| && |lines| - scrollOffset <= Complete(current, height)
    ensures InView(lines, current, scrollOffset, height, 0) ==>
              var shown := Visible(lines, current, scrollOffset, height);
              shown != [] && shown[0] == lines[0]
  {
    ViewIsVisible(lines, current, scrollOffset, height);
  }

  /**
    * Going to the top scrolls by the number of lines: the oldest line is then never in view, and
    * something is shown if and only if there is nothing but an unfinished line.
    */
  lemma {:induction false} TopIsBlank(lines: seq<string>, current: string, height: nat)
    ensures !InView(lines, current, |lines|, height, 0)
    ensures Visible(lines, current, |lines|, height) != [] <==> lines == [] && current != [] && height > 0
  {
  }

  // ----- The pane object -----

  class Pane {
    const scrollbackLimit: nat
    var lines: seq<string>
    var current: string
    var scrollOffset: nat
    // Everything pushed so far.
    ghost var input: seq<byte>

    ghost predicate Valid()
      reads this
    {
      && lines == Last(scrollbackLimit, Terminal(input).lines)
      && current == Terminal(input).current
      && Size(current) < MAX_LINE_BYTES
    }

    constructor (limit: nat)
      ensures Valid() && input == [] && scrollbackLimit == limit && scrollOffset == 0
    {
      scrollbackLimit := limit;
      lines, current, scrollOffset, input := [], [], 0, [];
    }

    method FinishLine()
      modifies this`lines, this`current
      ensures lines == Last(scrollbackLimit, old(lines) + [old(current)]) && current == []
    {
      lines := lines + [current];
      current := [];
      ghost var all := lines;
      while |lines| > scrollbackLimit
        invariant current == []
        invariant |lines| <= |all| && lines == all[|all| - |lines|..]
        invariant |lines| >= scrollbackLimit || lines == all
      {
        lines := lines[1..];
      }
    }

    method Push(bytes: seq<byte>)
      requires Valid()
      modifies this
      ensures Valid() && input == old(input) + bytes
      ensures scrollOffset == if FORM_FEED in bytes then 0 else old(scrollOffset)
    {
      for i := 0 to |bytes|
        invariant Valid() && input == old(input) + bytes[..i]
        invariant scrollOffset == if FORM_FEED in bytes[..i] then 0 else old(scrollOffset)
      {
        PushByte(bytes[i]);
        assert bytes[..i + 1] == bytes[..i] + [bytes[i]];
      }
      assert bytes[..|bytes|] == bytes;
    }

    /** One turn of the loop over the bytes pushed. */
    method PushByte(b: byte)
      requires Valid()
      modifies this
      ensures Valid() && input == old(input) + [b]
      ensures scrollOffset == if b == FORM_FEED then 0 else old(scrollOffset)
    {
      hide Size;
      ghost var t := Terminal(input);
      ghost var edited := Edit(t, b);
      LastAdded(scrollbackLimit, t.lines, t.current);
      LastAdded(scrollbackLimit, edited.lines, edited.current);
      LinesAreBounded(input + [b]);
      assert (input + [b])[..|input|] == input;
      input := input + [b];
      if b == 10 {
        FinishLine();
      } else if b == 13 {
        current := [];
      } else if b == 12 {
        lines, current, scrollOffset := [], [], 0;
      } else if b == 8 || b == 127 {
        current := if current == [] then [] else current[..|current| - 1];
      } else if 32 <= b <= 126 {
        current := current + [b as char];
      } else {
        current := current + [REPLACEMENT];
      }
      assert current == edited.current && lines == Last(scrollbackLimit, edited.lines);
      if Size(current) >= MAX_LINE_BYTES {
        FinishLine();
      }
    }

    method VisibleLines(height: nat) returns (rows: seq<string>)
      ensures rows == Visible(lines, current, scrollOffset, height)
      ensures |rows| <= height
      ensures rows == if scrollOffset == 0 then Last(height, Rows(lines, current))
                      else Last(if current != [] && height > 0 then height - 1 else height,
                                if scrollOffset < |lines| then lines[..|lines| - scrollOffset] else [])
    {
      VisibleIsWindow(lines, current, scrollOffset, height);
      var complete := Minus(height, if current != [] then 1 else 0);
      var end := Minus(|lines|, scrollOffset);
      var start := Minus(end, complete);
      rows := lines[start..end];
      if scrollOffset == 0 && current != [] && |rows| < height {
        rows := rows + [current];
      }
    }
  }
}
