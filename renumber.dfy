/**
 * The ordered-list renumbering pass at the end of clean_markdown
 * (converter_ui/app/utils.py, lines 58-94): a single pass over the lines
 * with one counter that a literal "1." advances, any other number
 * overwrites, and a header line resets.
 */
module Renumber {
  import opened Options
  import opened Text
  import opened Numbers

  /** A list-item line: `digits` "." one whitespace character `rest`. */
  datatype Item = Item(digits: string, rest: string)

  /** `line` splits as the regex `^(\d+)\.\s(.*)` splits it. */
  ghost predicate IsItem(line: string, digits: string, sep: char, rest: string) {
    digits != [] && AllDigits(digits) && IsSpace(sep) && line == digits + "." + [sep] + rest
  }

  /** re.match(r'^(\d+)\.\s(.*)', line) on a line without newline.  The
      digit run is greedy and a dot cannot be a digit, so a line has at
      most one such split, and this finds it when there is one. */
  function MatchItem(line: string): (r: Option<Item>)
    ensures r.Some? ==> |r.value.digits| + 1 < |line|
                        && IsItem(line, r.value.digits, line[|r.value.digits| + 1], r.value.rest)
  {
    var k := DigitRun(line);
    if 1 <= k && k + 1 < |line| && line[k] == '.' && IsSpace(line[k + 1]) then
      assert line == line[..k] + "." + [line[k + 1]] + line[k + 2..];
      Some(Item(line[..k], line[k + 2..]))
    else
      None
  }

  /** Every line of the form digits "." whitespace rest is matched, and by
      that very split: the match is exactly the regex's. */
  lemma {:induction false} MatchItemExact(line: string, d: string, c: char, rest: string)
    requires IsItem(line, d, c, rest)
    ensures MatchItem(line) == Some(Item(d, rest))
  {
    assert line == d + ("." + [c] + rest);
    DigitRunOf(d, "." + [c] + rest);
    assert line[..|d|] == d;
    assert line[|d| + 2..] == rest;
  }

  /** The counter after `line`, given the counter before it (lines 74-82, 91-92). */
  function NextCounter(counter: nat, line: string): nat {
    match MatchItem(line)
    case Some(item) => if Value(item.digits) == 1 then counter + 1 else Value(item.digits)
    case None => if "#" <= Strip(line) then 0 else counter
  }

  /** What line 84 or line 86 appends for `line`, given the counter before it. */
  function Emit(counter: nat, line: string): string {
    match MatchItem(line)
    case Some(item) => Decimal(NextCounter(counter, line)) + ". " + item.rest
    case None => line
  }

  /** The counter after a pass over `lines` that started at `counter`. */
  function CounterAfter(lines: seq<string>, counter: nat): nat
    decreases |lines|
  {
    if lines == [] then counter else CounterAfter(lines[1..], NextCounter(counter, lines[0]))
  }

  /** The counter's value when the pass reaches line `i`. */
  function CounterBefore(lines: seq<string>, i: nat): nat
    requires i <= |lines|
  {
    CounterAfter(lines[..i], 0)
  }

  /** The lines a pass emits from here on, with the counter at `counter`. */
  function RenumberFrom(lines: seq<string>, counter: nat): (r: seq<string>)
    ensures |r| == |lines|
    decreases |lines|
  {
    if lines == [] then []
    else [Emit(counter, lines[0])] + RenumberFrom(lines[1..], NextCounter(counter, lines[0]))
  }

  /** The renumbered lines (the counter starts at 0, line 60). */
  function Renumbered(lines: seq<string>): seq<string> {
    RenumberFrom(lines, 0)
  }

  /** The pass on a whole text: split on newlines, renumber, join. */
  function RenumberText(s: string): string {
    Join(Renumbered(Split(s)))
  }

  /** The loop of lines 58-94, building new_lines and updating counter. */
  method RenumberLines(lines: seq<string>) returns (newLines: seq<string>)
    ensures newLines == Renumbered(lines)
  {
    newLines := [];
    var counter: nat := 0;
    for i := 0 to |lines|
      invariant newLines + RenumberFrom(lines[i..], counter) == Renumbered(lines)
    {
      var line := lines[i];
      ghost var before := counter;
      ghost var done := newLines;
      RenumberFromCons(lines, i, counter);
      match MatchItem(line) {
        case Some(item) =>
          ItemStep(before, line, item);
          var originalNum := Value(item.digits);
          if originalNum == 1 {
            counter := counter + 1;
          } else {
            counter := originalNum;
          }
          newLines := newLines + [Decimal(counter) + ". " + item.rest];
        case None =>
          PlainStep(before, line);
          newLines := newLines + [line];
          if "#" <= Strip(line) {
            counter := 0;
          }
      }
      assert newLines == done + [Emit(before, line)];
      assert counter == NextCounter(before, line);
      AppendAssoc(done, [Emit(before, line)], RenumberFrom(lines[i + 1..], counter));
    }
    assert lines[|lines|..] == [];
  }

  /** The pass from line i on is line i's emission followed by the pass
      from line i + 1 on. */
  lemma {:induction false} RenumberFromCons(lines: seq<string>, i: nat, counter: nat)
    requires i < |lines|
    ensures RenumberFrom(lines[i..], counter)
         == [Emit(counter, lines[i])] + RenumberFrom(lines[i + 1..], NextCounter(counter, lines[i]))
  {
    assert lines[i..][1..] == lines[i + 1..];
  }

  /** Taking one more line into the pass is one more step of the counter. */
  lemma {:induction false} CounterAfterSnoc(lines: seq<string>, line: string, counter: nat)
    ensures CounterAfter(lines + [line], counter) == NextCounter(CounterAfter(lines, counter), line)
    decreases |lines|
  {
    if lines != [] {
      assert (lines + [line])[1..] == lines[1..] + [line];
      CounterAfterSnoc(lines[1..], line, NextCounter(counter, lines[0]));
    }
  }

  /** The counter before line i + 1 is the step from the counter before line i. */
  lemma {:induction false} CounterBeforeStep(lines: seq<string>, i: nat)
    requires i < |lines|
    ensures CounterBefore(lines, i + 1) == NextCounter(CounterBefore(lines, i), lines[i])
  {
    assert lines[..i + 1] == lines[..i] + [lines[i]];
    CounterAfterSnoc(lines[..i], lines[i], 0);
  }

  /** Line i of a pass's output is that line emitted with the counter
      reached there. */
  lemma {:induction false} RenumberFromAt(lines: seq<string>, counter: nat, i: nat)
    requires i < |lines|
    ensures RenumberFrom(lines, counter)[i] == Emit(CounterAfter(lines[..i], counter), lines[i])
    decreases i
  {
    if i > 0 {
      var next := NextCounter(counter, lines[0]);
      RenumberFromAt(lines[1..], next, i - 1);
      CounterAfterCons(lines, counter, i);
      RenumberFromTail(lines, counter, i);
    }
  }

  lemma {:induction false} CounterAfterCons(lines: seq<string>, counter: nat, i: nat)
    requires 0 < i <= |lines|
    ensures CounterAfter(lines[..i], counter) == CounterAfter(lines[1..][..i - 1], NextCounter(counter, lines[0]))
  {
    assert lines[..i][1..] == lines[1..][..i - 1];
  }

  lemma {:induction false} RenumberFromTail(lines: seq<string>, counter: nat, i: nat)
    requires 0 < i < |lines|
    ensures RenumberFrom(lines, counter)[i] == RenumberFrom(lines[1..], NextCounter(counter, lines[0]))[i - 1]
  {
  }

  /** Line i of the renumbered output, in terms of the counter there. */
  lemma {:induction false} RenumberedAt(lines: seq<string>, i: nat)
    requires i < |lines|
    ensures Renumbered(lines)[i] == Emit(CounterBefore(lines, i), lines[i])
  {
    RenumberFromAt(lines, 0, i);
  }

  /** One step of the pass on a list item. */
  lemma {:induction false} ItemStep(counter: nat, line: string, item: Item)
    requires MatchItem(line) == Some(item)
    ensures NextCounter(counter, line) == if Value(item.digits) == 1 then counter + 1 else Value(item.digits)
    ensures Emit(counter, line) == Decimal(NextCounter(counter, line)) + ". " + item.rest
  {
  }

  /** One step of the pass on any other line. */
  lemma {:induction false} PlainStep(counter: nat, line: string)
    requires MatchItem(line).None?
    ensures NextCounter(counter, line) == if "#" <= Strip(line) then 0 else counter
    ensures Emit(counter, line) == line
  {
  }

  /** Renumbering is line for line: as many lines come out as go in, a
      line that is not a list item is kept byte for byte, and a list item
      becomes the counter, ". " and the text after its separator. */
  lemma {:induction false} RenumberLineForLine(lines: seq<string>, i: nat)
    requires i < |lines|
    ensures |Renumbered(lines)| == |lines|
    ensures (forall d, c, rest :: !IsItem(lines[i], d, c, rest)) ==> Renumbered(lines)[i] == lines[i]
    ensures forall d, c, rest :: IsItem(lines[i], d, c, rest) ==>
              Renumbered(lines)[i] == Decimal(CounterBefore(lines, i + 1)) + ". " + rest
  {
    RenumberedAt(lines, i);
    CounterBeforeStep(lines, i);
    match MatchItem(lines[i]) {
      case Some(item) =>
        ItemStep(CounterBefore(lines, i), lines[i], item);
        forall d, c, rest | IsItem(lines[i], d, c, rest)
          ensures Renumbered(lines)[i] == Decimal(CounterBefore(lines, i + 1)) + ". " + rest
        {
          MatchItemExact(lines[i], d, c, rest);
        }
      case None =>
        PlainStep(CounterBefore(lines, i), lines[i]);
        forall d, c, rest | IsItem(lines[i], d, c, rest) ensures false {
          MatchItemExact(lines[i], d, c, rest);
        }
    }
  }

  /** A run of literal "1." items is numbered on from the counter before
      the run: the j-th of them gets counter + j + 1. */
  lemma {:induction false} OnesCountUp(lines: seq<string>, i: nat, m: nat, j: nat)
    requires i + m <= |lines| && j < m
    requires forall k :: i <= k < i + m ==> MatchItem(lines[k]).Some? && Value(MatchItem(lines[k]).value.digits) == 1
    ensures CounterBefore(lines, i + j + 1) == CounterBefore(lines, i) + j + 1
    ensures Renumbered(lines)[i + j] == Decimal(CounterBefore(lines, i) + j + 1) + ". " + MatchItem(lines[i + j]).value.rest
    decreases j
  {
    if j > 0 {
      OnesCountUp(lines, i, m, j - 1);
    }
    var k := i + j;
    CounterBeforeStep(lines, k);
    RenumberedAt(lines, k);
    ItemStep(CounterBefore(lines, k), lines[k], MatchItem(lines[k]).value);
  }

  /** An item numbered N other than 1 keeps N and sets the counter to N, so
      a "1." right after it becomes N + 1. */
  lemma {:induction false} OtherNumberKept(lines: seq<string>, i: nat)
    requires i < |lines| && MatchItem(lines[i]).Some?
    requires Value(MatchItem(lines[i]).value.digits) != 1
    ensures var n := Value(MatchItem(lines[i]).value.digits);
      CounterBefore(lines, i + 1) == n
      && Renumbered(lines)[i] == Decimal(n) + ". " + MatchItem(lines[i]).value.rest
      && (i + 1 < |lines| && MatchItem(lines[i + 1]).Some? && Value(MatchItem(lines[i + 1]).value.digits) == 1 ==>
            Renumbered(lines)[i + 1] == Decimal(n + 1) + ". " + MatchItem(lines[i + 1]).value.rest)
  {
    CounterBeforeStep(lines, i);
    RenumberedAt(lines, i);
    ItemStep(CounterBefore(lines, i), lines[i], MatchItem(lines[i]).value);
    if i + 1 < |lines| && MatchItem(lines[i + 1]).Some? {
      CounterBeforeStep(lines, i + 1);
      RenumberedAt(lines, i + 1);
      ItemStep(CounterBefore(lines, i + 1), lines[i + 1], MatchItem(lines[i + 1]).value);
    }
  }

  /** A header is a non-item line whose stripped form starts with '#'. */
  predicate IsHeader(line: string) {
    MatchItem(line).None? && "#" <= Strip(line)
  }

  /** Only headers reset the counter: across lines that are neither list
      items nor headers (blank lines, images, body text) it is unchanged,
      and right after a header it is 0. */
  lemma {:induction false} OnlyHeadersReset(lines: seq<string>, i: nat, j: nat)
    requires i <= j <= |lines|
    requires forall k :: i <= k < j ==> MatchItem(lines[k]).None? && !IsHeader(lines[k])
    ensures CounterBefore(lines, j) == CounterBefore(lines, i)
    ensures j < |lines| && IsHeader(lines[j]) ==> CounterBefore(lines, j + 1) == 0
    decreases j - i
  {
    if i < j {
      OnlyHeadersReset(lines, i, j - 1);
      CounterBeforeStep(lines, j - 1);
      PlainStep(CounterBefore(lines, j - 1), lines[j - 1]);
    }
    if j < |lines| && IsHeader(lines[j]) {
      CounterBeforeStep(lines, j);
      PlainStep(CounterBefore(lines, j), lines[j]);
    }
  }

  /** What renumbering emits for an item is an item again, with the number
      the counter had. */
  lemma {:induction false} EmittedItem(n: nat, rest: string)
    ensures MatchItem(Decimal(n) + ". " + rest) == Some(Item(Decimal(n), rest))
  {
    assert Decimal(n) + ". " + rest == Decimal(n) + "." + [' '] + rest;
    MatchItemExact(Decimal(n) + ". " + rest, Decimal(n), ' ', rest);
  }

  /** Re-emitting an emitted line with the same counter changes neither the
      line nor the counter it leads to. */
  lemma {:induction false} EmitStable(counter: nat, line: string)
    ensures Emit(counter, Emit(counter, line)) == Emit(counter, line)
    ensures NextCounter(counter, Emit(counter, line)) == NextCounter(counter, line)
  {
    match MatchItem(line) {
      case Some(item) =>
        ItemStep(counter, line, item);
        var n := NextCounter(counter, line);
        EmittedItem(n, item.rest);
        ValueDecimal(n);
        ItemStep(counter, Emit(counter, line), Item(Decimal(n), item.rest));
      case None =>
        PlainStep(counter, line);
    }
  }

  /** Renumbering renumbered lines changes nothing: the pass alone is
      idempotent (the whole clean_markdown pipeline is not). */
  lemma {:induction false} RenumberIdempotent(lines: seq<string>, counter: nat)
    ensures RenumberFrom(RenumberFrom(lines, counter), counter) == RenumberFrom(lines, counter)
    decreases |lines|
  {
    if lines != [] {
      EmitStable(counter, lines[0]);
      var out := RenumberFrom(lines, counter);
      assert out[0] == Emit(counter, lines[0]);
      assert out[1..] == RenumberFrom(lines[1..], NextCounter(counter, lines[0]));
      RenumberIdempotent(lines[1..], NextCounter(counter, lines[0]));
    }
  }

  /** A literal "1." item advances the counter by one. */
  lemma {:induction false} OneStep(counter: nat, rest: string)
    ensures NextCounter(counter, "1. " + rest) == counter + 1
    ensures Emit(counter, "1. " + rest) == Decimal(counter + 1) + ". " + rest
  {
    assert "1. " + rest == "1" + "." + [' '] + rest;
    MatchItemExact("1. " + rest, "1", ' ', rest);
    assert Value("1") == 1;
  }

  /** A line starting with '#' is a header. */
  lemma {:induction false} HashLineIsHeader(counter: nat, h: string)
    ensures IsHeader("#" + h)
    ensures NextCounter(counter, "#" + h) == 0 && Emit(counter, "#" + h) == "#" + h
  {
    var line := "#" + h;
    assert line[0] == '#';
    assert DigitRun(line) == 0;
    assert LStrip(line) == line;
    RStripKeepsPrefix("#", line);
  }

  /** The lines of the repeated-ones example, one at a time. */
  lemma {:induction false} OnesLines(a: string, b: string, c: string)
    ensures Emit(0, "1. " + a) == "1. " + a && NextCounter(0, "1. " + a) == 1
    ensures Emit(1, "1. " + b) == "2. " + b && NextCounter(1, "1. " + b) == 2
    ensures Emit(2, "1. " + c) == "3. " + c && NextCounter(2, "1. " + c) == 3
  {
    OneStep(0, a);
    OneStep(1, b);
    OneStep(2, c);
    SmallNumeral(1, "1", a);
    SmallNumeral(2, "2", b);
    SmallNumeral(3, "3", c);
  }

  lemma SmallNumeral(n: nat, d: string, rest: string)
    requires 1 <= n <= 3 && d == [DigitChar(n)]
    ensures Decimal(n) + ". " + rest == d + ". " + rest
  {
  }

  /** Repeated "1." items are numbered 1, 2, 3. */
  lemma {:induction false} RepeatedOnes(a: string, b: string, c: string)
    ensures Renumbered(["1. " + a, "1. " + b, "1. " + c]) == ["1. " + a, "2. " + b, "3. " + c]
  {
    OnesLines(a, b, c);
    assert ["1. " + a, "1. " + b, "1. " + c] == ["1. " + a] + (["1. " + b] + (["1. " + c] + []));
    RenumberFromHead("1. " + a, ["1. " + b] + (["1. " + c] + []), 0);
    RenumberFromHead("1. " + b, ["1. " + c] + [], 1);
    RenumberFromHead("1. " + c, [], 2);
  }

  /** A header between two "1." items resets the counter, so both stay 1. */
  lemma {:induction false} HeaderResets(a: string, h: string, b: string)
    ensures Renumbered(["1. " + a, "#" + h, "1. " + b]) == ["1. " + a, "#" + h, "1. " + b]
  {
    OneStep(0, a);
    OneStep(0, b);
    HashLineIsHeader(1, h);
    assert Decimal(1) + ". " + b == "1. " + b && Decimal(1) + ". " + a == "1. " + a;
    assert ["1. " + a, "#" + h, "1. " + b] == ["1. " + a] + (["#" + h] + (["1. " + b] + []));
    RenumberFromHead("1. " + a, ["#" + h] + (["1. " + b] + []), 0);
    RenumberFromHead("#" + h, ["1. " + b] + [], 1);
    RenumberFromHead("1. " + b, [], 0);
  }

  /** The pass over a line in front of others. */
  lemma RenumberFromHead(line: string, rest: seq<string>, counter: nat)
    ensures RenumberFrom([line] + rest, counter) == [Emit(counter, line)] + RenumberFrom(rest, NextCounter(counter, line))
  {
    assert ([line] + rest)[1..] == rest;
  }

  /** A line that does not open with a digit is no list item. */
  lemma {:induction false} NonDigitNoItem(line: string)
    requires line == [] || !IsDigit(line[0])
    ensures MatchItem(line).None?
  {
  }

  /** A line that is no list item leaves the text after it to a pass that
      starts afresh: either way the counter after it is 0. */
  lemma {:induction false} RenumberTextCons(a: string, b: string)
    requires '\n' !in a && MatchItem(a).None?
    ensures RenumberText(a + "\n" + b) == a + "\n" + RenumberText(b)
  {
    SplitCons(a, b);
    var rest := Split(b);
    PlainStep(0, a);
    RenumberFromCons([a] + rest, 0, 0);
    assert ([a] + rest)[1..] == rest;
    var out := [a] + RenumberFrom(rest, 0);
    assert Renumbered([a] + rest) == out;
    assert out[1..] == Renumbered(rest);
  }

  /** A first line that does not open with a digit comes out first, as it is. */
  lemma {:induction false} RenumberTextLead(l: string, w: string)
    requires '\n' !in l && l != [] && !IsDigit(l[0])
    ensures l <= RenumberText(l + w)
  {
    var lines := Split(l + w);
    FirstLinePrefix(l, w);
    NonDigitNoItem(lines[0]);
    RenumberedAt(lines, 0);
    PlainStep(CounterBefore(lines, 0), lines[0]);
    JoinHead(Renumbered(lines));
  }
}
