/** The lockstep comparison of two preprocessed token streams (scripts/utests/utf_ppstream.py).

The tool skips identical lines without tokenizing them, refills each side when it happens to run
dry, and discovers one line-number shift from the first difference it meets.  The specification
forgets all of that: each side is flattened to one sequence of items, and the two sequences are
compared element by element. */
module TokenStream {
  import opened Wrappers
  import opened Sequences

  /** What the tool's regular expressions say about one line.  `marker` is the normalized file name
      of a line marker; `tokenize` is `None` where the tokenizer raises on a raw string literal. */
  datatype Lexer = Lexer(marker: string -> Option<string>, tokenize: string -> Option<seq<string>>)

  // ---------------------------------------------------------------- items

  /** One position of a flattened side.  A raw-literal line is one opaque item, and so is the end of
      the stream.  Both remember how many token-free lines stand directly before them, because that
      is the one thing about line layout the comparison can observe. */
  datatype Item =
    | Tok(text: string, file: string)
    | Raw(line: string, gap: nat)
    | End(gap: nat)

  function MarkerOf(lexer: Lexer, line: string): Option<string> {
    if |line| > 0 && line[0] == '#' then lexer.marker(line) else None
  }

  /** Only a line with `#` in front can be a line marker, whatever the expression for markers finds elsewhere. */
  lemma MarkerMeans(lexer: Lexer, line: string, file: string)
    ensures MarkerOf(lexer, line) == Some(file) <==> "#" <= line && lexer.marker(line) == Some(file)
  {
    assert "#" == ['#'];
  }

  function Tokens(texts: seq<string>, file: string): (items: seq<Item>)
    ensures |items| == |texts|
    ensures forall i :: 0 <= i < |texts| ==> items[i] == Tok(texts[i], file)
  {
    seq(|texts|, i requires 0 <= i < |texts| => Tok(texts[i], file))
  }

  /** The items of the lines still to be read, `gap` token-free lines having just gone by. */
  function Items(lexer: Lexer, lines: seq<string>, file: string, gap: nat): (items: seq<Item>)
    ensures |items| > 0
    decreases |lines|, 0
  {
    if lines == [] then
      [End(gap)]
    else
      match MarkerOf(lexer, lines[0])
      case Some(next) => Items(lexer, lines[1..], next, gap)
      case None => LineItems(lexer, lines[0], lines[1..], file, gap)
  }

  /** The items of one content line followed by those of the rest. */
  function LineItems(lexer: Lexer, line: string, rest: seq<string>, file: string, gap: nat): (items: seq<Item>)
    ensures |items| > 0
    decreases |rest|, 1
  {
    match lexer.tokenize(line)
    case None => [Raw(line, gap)] + Items(lexer, rest, file, 0)
    case Some(texts) =>
      if texts == [] then Items(lexer, rest, file, gap + 1)
      else Tokens(texts, file) + Items(lexer, rest, file, 0)
  }

  /** Adds `more` token-free lines in front of a sequence of items. */
  function Delay(items: seq<Item>, more: nat): (delayed: seq<Item>)
    ensures |delayed| == |items|
  {
    if items == [] then items
    else
      match items[0]
      case Tok(_, _) => items
      case Raw(line, gap) => [Raw(line, gap + more)] + items[1..]
      case End(gap) => [End(gap + more)] + items[1..]
  }

  lemma {:induction false} GapIsDelay(lexer: Lexer, lines: seq<string>, file: string, gap: nat, more: nat)
    ensures Items(lexer, lines, file, gap + more) == Delay(Items(lexer, lines, file, gap), more)
    decreases |lines|
  {
    if lines == [] {
    } else {
      match MarkerOf(lexer, lines[0])
      case Some(next) => GapIsDelay(lexer, lines[1..], next, gap, more);
      case None =>
        if lexer.tokenize(lines[0]) == Some([]) {
          GapIsDelay(lexer, lines[1..], file, gap + 1, more);
          assert gap + 1 + more == gap + more + 1;
        }
    }
  }

  // ---------------------------------------------------------------- agreement

  predicate IsDecimal(text: string) {
    |text| > 0 && forall i :: 0 <= i < |text| ==> '0' <= text[i] <= '9'
  }

  function IntOf(text: string): int
    requires forall i :: 0 <= i < |text| ==> '0' <= text[i] <= '9'
  {
    if text == [] then 0
    else 10 * IntOf(text[..|text| - 1]) + (text[|text| - 1] as int - '0' as int)
  }

  const DIGITS: string := "0123456789"

  function DigitOf(d: nat): (c: char)
    requires d < 10
    ensures '0' <= c <= '9' && c as int - '0' as int == d
  {
    DIGITS[d]
  }

  /** The decimal spelling of a number, by repeated division. */
  function Spell(n: nat): (text: string)
    ensures text != ""
  {
    (if n < 10 then "" else Spell(n / 10)) + [DigitOf(n % 10)]
  }

  function Zeros(z: nat): (text: string)
    ensures |text| == z && forall i :: 0 <= i < z ==> text[i] == '0'
  {
    seq(z, _ => '0')
  }

  /** The text is a spelling of `n`, with leading zeros or without. */
  ghost predicate Spells(text: string, n: nat) {
    exists z: nat :: text == Zeros(z) + Spell(n)
  }

  lemma OneMoreDigit(init: string, d: nat)
    requires d < 10 && (init == "" || IsDecimal(init))
    ensures IsDecimal(init + [DigitOf(d)]) && IntOf(init + [DigitOf(d)]) == 10 * IntOf(init) + d
  {
    hide DigitOf;
    var text := init + [DigitOf(d)];
    assert text[..|text| - 1] == init;
  }

  lemma {:induction false} SpellIsDecimal(n: nat)
    ensures IsDecimal(Spell(n)) && IntOf(Spell(n)) == n
  {
    hide DigitOf, IntOf, IsDecimal;
    if n < 10 {
      OneMoreDigit("", n);
      NoDigits();
      assert "" + [DigitOf(n)] == Spell(n);
    } else {
      SpellIsDecimal(n / 10);
      OneMoreDigit(Spell(n / 10), n % 10);
    }
  }

  lemma NoDigits()
    ensures IntOf("") == 0
  {
  }

  lemma {:induction false} LeadingZeros(z: nat, text: string)
    requires IsDecimal(text)
    ensures IsDecimal(Zeros(z) + text) && IntOf(Zeros(z) + text) == IntOf(text)
    decreases z + |text|
  {
    var all := Zeros(z) + text;
    if |text| == 1 {
      assert all[..z] == Zeros(z);
      ZeroIsNothing(z);
      assert text[..0] == "" && IntOf("") == 0;
    } else {
      assert all[..|all| - 1] == Zeros(z) + text[..|text| - 1];
      LeadingZeros(z, text[..|text| - 1]);
    }
  }

  lemma {:induction false} ZeroIsNothing(z: nat)
    ensures IntOf(Zeros(z)) == 0
  {
    if z == 0 {
    } else {
      assert Zeros(z)[..z - 1] == Zeros(z - 1);
      ZeroIsNothing(z - 1);
    }
  }

  lemma LastDigit(text: string) returns (init: string, d: nat)
    requires IsDecimal(text)
    ensures d < 10 && text == init + [DigitOf(d)] && init == text[..|text| - 1] && (init == "" || IsDecimal(init))
  {
    init, d := text[..|text| - 1], text[|text| - 1] as int - '0' as int;
    assert DigitOf(d) == text[|text| - 1];
  }

  lemma SpellNext(n: nat, d: nat)
    requires d < 10
    ensures Spell(10 * n + d) == if n == 0 then [DigitOf(d)] else Spell(n) + [DigitOf(d)]
  {
    hide DigitOf;
    assert (10 * n + d) / 10 == n && (10 * n + d) % 10 == d;
  }

  lemma {:induction false} EveryDecimalIsSpelled(text: string) returns (z: nat)
    requires IsDecimal(text)
    ensures IntOf(text) >= 0 && text == Zeros(z) + Spell(IntOf(text))
    decreases |text|
  {
    hide DigitOf, IntOf, Spell;
    var init, d := LastDigit(text);
    OneMoreDigit(init, d);
    if init == "" {
      z := 0;
      NoDigits();
      SpellNext(0, d);
    } else {
      z := EveryDecimalIsSpelled(init);
      var n := IntOf(init);
      SpellNext(n, d);
      if n == 0 {
        SpellZero();
        assert Zeros(z + 1) == Zeros(z) + "0";
        z := z + 1;
      } else {
        assert Zeros(z) + (Spell(n) + [DigitOf(d)]) == (Zeros(z) + Spell(n)) + [DigitOf(d)];
      }
    }
  }

  lemma SpellZero()
    ensures Spell(0) == "0"
  {
  }

  /** A decimal literal stands for the one number it spells. */
  lemma DecimalMeans(text: string, n: nat)
    ensures IsDecimal(text) && IntOf(text) == n <==> Spells(text, n)
  {
    if IsDecimal(text) && IntOf(text) == n {
      var z := EveryDecimalIsSpelled(text);
    }
    if z: nat :| text == Zeros(z) + Spell(n) {
      SpellIsDecimal(n);
      LeadingZeros(z, Spell(n));
    }
  }

  /** Two items are equal, or tokens of the shift file which spell two integers that are `d` apart. */
  ghost predicate ShiftedBy(x: Item, y: Item, shiftFile: Option<string>, d: int) {
    || x == y
    || (x.Tok? && y.Tok? && x.text == y.text)
    || (x.Tok? && y.Tok? && shiftFile == Some(x.file) && shiftFile == Some(y.file)
        && exists m: nat, n: nat :: Spells(x.text, m) && Spells(y.text, n) && n - m == d)
  }

  /** What agreeing means, in terms of integers and their spellings. */
  lemma AgreeMeans(x: Item, y: Item, shiftFile: Option<string>, d: int)
    ensures Agree(x, y, shiftFile, d) <==> ShiftedBy(x, y, shiftFile, d)
  {
    hide IntOf, Spells;
    if x.Tok? && y.Tok? {
      if IsDecimal(x.text) && IsDecimal(y.text) {
        ValueIsSpelled(x.text);
        ValueIsSpelled(y.text);
      }
      forall m: nat, n: nat | Spells(x.text, m) && Spells(y.text, n)
        ensures IsDecimal(x.text) && IsDecimal(y.text) && IntOf(y.text) - IntOf(x.text) == n - m
      {
        DecimalMeans(x.text, m);
        DecimalMeans(y.text, n);
      }
    }
  }

  lemma ValueIsSpelled(text: string)
    requires IsDecimal(text)
    ensures IntOf(text) >= 0 && Spells(text, IntOf(text))
  {
    var z := EveryDecimalIsSpelled(text);
  }

  /** The two items read the same; the file a token came from does not matter. */
  predicate Same(x: Item, y: Item) {
    match (x, y)
    case (Tok(s, _), Tok(t, _)) => s == t
    case _ => x == y
  }

  predicate Shiftable(x: Item, y: Item, shiftFile: Option<string>) {
    && x.Tok? && y.Tok?
    && shiftFile.Some? && x.file == shiftFile.value && y.file == shiftFile.value
    && IsDecimal(x.text) && IsDecimal(y.text)
  }

  predicate Agree(x: Item, y: Item, shiftFile: Option<string>, d: int) {
    Same(x, y) || (Shiftable(x, y, shiftFile) && IntOf(y.text) - IntOf(x.text) == d)
  }

  /** The specification: equally long, and every pair equal or shifted by the one amount `d`. */
  ghost predicate AllAgree(xs: seq<Item>, ys: seq<Item>, shiftFile: Option<string>, d: int) {
    |xs| == |ys| && forall i :: 0 <= i < |xs| ==> Agree(xs[i], ys[i], shiftFile, d)
  }

  predicate Admits(shift: Option<int>, d: int) {
    shift.Some? ==> shift.value == d
  }

  /** A failure names the offending pair where both sides offer a token there. */
  datatype Verdict = Pass(shift: Option<int>) | Fail(tokens: Option<(Item, Item)>)

  function FailAt(x: Item, y: Item): Verdict {
    Fail(if x.Tok? && y.Tok? then Some((x, y)) else None)
  }

  /** One pair at a time, learning the shift from the first pair that needs one. */
  function Lockstep(xs: seq<Item>, ys: seq<Item>, shiftFile: Option<string>, shift: Option<int>): Verdict
    decreases |xs|
  {
    if xs == [] && ys == [] then Pass(shift)
    else if xs == [] || ys == [] then Fail(None)
    else if Same(xs[0], ys[0]) then Lockstep(xs[1..], ys[1..], shiftFile, shift)
    else if !Shiftable(xs[0], ys[0], shiftFile) then FailAt(xs[0], ys[0])
    else
      var delta := IntOf(ys[0].text) - IntOf(xs[0].text);
      if Admits(shift, delta) then Lockstep(xs[1..], ys[1..], shiftFile, Some(delta))
      else FailAt(xs[0], ys[0])
  }

  /** How many positions differ in text. */
  function Differing(xs: seq<Item>, ys: seq<Item>): nat
    decreases |xs|
  {
    if xs == [] || ys == [] then 0
    else (if Same(xs[0], ys[0]) then 0 else 1) + Differing(xs[1..], ys[1..])
  }

  /** Greedy discovery is exact: it passes iff some single amount works for every position, and it
      then carries out that amount as soon as one position needed it. */
  lemma {:induction false} LockstepIsAgreement(xs: seq<Item>, ys: seq<Item>, shiftFile: Option<string>,
      shift: Option<int>)
    ensures Lockstep(xs, ys, shiftFile, shift).Pass? <==>
            exists d :: Admits(shift, d) && AllAgree(xs, ys, shiftFile, d)
    ensures Lockstep(xs, ys, shiftFile, shift).Pass? ==>
              var out := Lockstep(xs, ys, shiftFile, shift).shift;
              && (if Differing(xs, ys) == 0 then out == shift else out.Some?)
              && forall d :: Admits(out, d) <==> Admits(shift, d) && AllAgree(xs, ys, shiftFile, d)
    decreases |xs|
  {
    if xs == [] || ys == [] {
      var d := if shift.Some? then shift.value else 0;
      assert xs == ys ==> Admits(shift, d) && AllAgree(xs, ys, shiftFile, d);
    } else {
      AgreeFromHead(xs, ys, shiftFile);
      if Same(xs[0], ys[0]) {
        LockstepIsAgreement(xs[1..], ys[1..], shiftFile, shift);
      } else if Shiftable(xs[0], ys[0], shiftFile) {
        var delta := IntOf(ys[0].text) - IntOf(xs[0].text);
        LockstepIsAgreement(xs[1..], ys[1..], shiftFile, Some(delta));
        assert Admits(Some(delta), delta);
      }
    }
  }

  lemma AgreeFromHead(xs: seq<Item>, ys: seq<Item>, shiftFile: Option<string>)
    requires xs != [] && ys != []
    ensures forall d :: AllAgree(xs, ys, shiftFile, d) <==>
                        Agree(xs[0], ys[0], shiftFile, d) && AllAgree(xs[1..], ys[1..], shiftFile, d)
  {
    forall d
      ensures AllAgree(xs, ys, shiftFile, d) <==>
              Agree(xs[0], ys[0], shiftFile, d) && AllAgree(xs[1..], ys[1..], shiftFile, d)
    {
      if Agree(xs[0], ys[0], shiftFile, d) && AllAgree(xs[1..], ys[1..], shiftFile, d) {
        forall i | 0 <= i < |xs| ensures Agree(xs[i], ys[i], shiftFile, d) {
          if i > 0 {
            assert xs[i] == xs[1..][i - 1] && ys[i] == ys[1..][i - 1];
          }
        }
      }
      if AllAgree(xs, ys, shiftFile, d) {
        forall i | 0 <= i < |xs[1..]| ensures Agree(xs[1..][i], ys[1..][i], shiftFile, d) {
          assert Agree(xs[i + 1], ys[i + 1], shiftFile, d);
        }
      }
    }
  }

  // ---------------------------------------------------------------- one pulled line at a time

  /** Delaying both sides alike changes nothing. */
  lemma DelayBoth(xs: seq<Item>, ys: seq<Item>, shiftFile: Option<string>, shift: Option<int>, more: nat)
    requires xs != [] && ys != []
    ensures Lockstep(Delay(xs, more), Delay(ys, more), shiftFile, shift) == Lockstep(xs, ys, shiftFile, shift)
    ensures Differing(Delay(xs, more), Delay(ys, more)) == Differing(xs, ys)
  {
    var dx, dy := Delay(xs, more), Delay(ys, more);
    assert dx[1..] == xs[1..] && dy[1..] == ys[1..];
    assert Same(dx[0], dy[0]) == Same(xs[0], ys[0]);
  }

  /** Delaying one side changes nothing where the other side's next item is a token. */
  lemma DelayAgainstToken(xs: seq<Item>, ys: seq<Item>, shiftFile: Option<string>, shift: Option<int>, more: nat)
    requires xs != [] && ys != [] && (xs[0].Tok? || ys[0].Tok?)
    ensures Lockstep(Delay(xs, more), ys, shiftFile, shift) == Lockstep(xs, ys, shiftFile, shift)
    ensures Lockstep(xs, Delay(ys, more), shiftFile, shift) == Lockstep(xs, ys, shiftFile, shift)
    ensures Differing(Delay(xs, more), ys) == Differing(xs, ys)
    ensures Differing(xs, Delay(ys, more)) == Differing(xs, ys)
  {
    var dx, dy := Delay(xs, more), Delay(ys, more);
    assert dx[1..] == xs[1..] && dy[1..] == ys[1..];
  }

  /** Tokens which read the same on both sides drop out, whichever files they are attributed to. */
  lemma {:induction false} CommonTokensDrop(texts: seq<string>, f: string, g: string, xs: seq<Item>, ys: seq<Item>,
      shiftFile: Option<string>, shift: Option<int>)
    ensures Lockstep(Tokens(texts, f) + xs, Tokens(texts, g) + ys, shiftFile, shift) ==
        Lockstep(xs, ys, shiftFile, shift)
    ensures Differing(Tokens(texts, f) + xs, Tokens(texts, g) + ys) == Differing(xs, ys)
    decreases |texts|
  {
    var left, right := Tokens(texts, f) + xs, Tokens(texts, g) + ys;
    if texts == [] {
      assert left == xs && right == ys;
    } else {
      assert left[1..] == Tokens(texts[1..], f) + xs;
      assert right[1..] == Tokens(texts[1..], g) + ys;
      CommonTokensDrop(texts[1..], f, g, xs, ys, shiftFile, shift);
    }
  }

  /** Skipping a line both sides share is sound without tokenizing it. */
  lemma CommonLineDrops(lexer: Lexer, line: string, restX: seq<string>, fileX: string, restY: seq<string>,
      fileY: string, shiftFile: Option<string>, shift: Option<int>)
    ensures Lockstep(LineItems(lexer, line, restX, fileX, 0), LineItems(lexer, line, restY, fileY, 0), shiftFile, shift)
         == Lockstep(Items(lexer, restX, fileX, 0), Items(lexer, restY, fileY, 0), shiftFile, shift)
    ensures Differing(LineItems(lexer, line, restX, fileX, 0), LineItems(lexer, line, restY, fileY, 0))
         == Differing(Items(lexer, restX, fileX, 0), Items(lexer, restY, fileY, 0))
  {
    var xs, ys := Items(lexer, restX, fileX, 0), Items(lexer, restY, fileY, 0);
    match lexer.tokenize(line)
    case None =>
      assert ([Raw(line, 0)] + xs)[1..] == xs && ([Raw(line, 0)] + ys)[1..] == ys;
    case Some(texts) =>
      if texts == [] {
        GapIsDelay(lexer, restX, fileX, 0, 1);
        GapIsDelay(lexer, restY, fileY, 0, 1);
        DelayBoth(xs, ys, shiftFile, shift, 1);
      } else {
        CommonTokensDrop(texts, fileX, fileY, xs, ys, shiftFile, shift);
      }
  }

  /** What a line which is about to be tokenized can start with. */
  lemma {:induction false} FirstItem(lexer: Lexer, line: string, rest: seq<string>, file: string)
    ensures var head := LineItems(lexer, line, rest, file, 0)[0];
            match lexer.tokenize(line)
            case None => head == Raw(line, 0)
            case Some(texts) => if texts == [] then head.Tok? || head.gap > 0 else head == Tok(texts[0], file)
  {
    if lexer.tokenize(line) == Some([]) {
      GapIsDelay(lexer, rest, file, 0, 1);
    }
  }

  /** The items a side offers once a line has been tokenized and queued. */
  function PushedItems(lexer: Lexer, line: string, rest: seq<string>, file: string): (items: seq<Item>)
    requires lexer.tokenize(line).Some?
    ensures |items| > 0
  {
    Tokens(lexer.tokenize(line).value, file) + Items(lexer, rest, file, 0)
  }

  /** Queuing one line loses at most one unit of delay, which a token on the other side cannot see. */
  lemma PushedAgainstToken(lexer: Lexer, line: string, rest: seq<string>, file: string, ys: seq<Item>,
      shiftFile: Option<string>, shift: Option<int>)
    requires ys != [] && ys[0].Tok?
    ensures var xs := LineItems(lexer, line, rest, file, 0);
            if lexer.tokenize(line).None? then
              Lockstep(xs, ys, shiftFile, shift) == Lockstep(ys, xs, shiftFile, shift) == Fail(None)
            else
              var pushed := PushedItems(lexer, line, rest, file);
              && Lockstep(pushed, ys, shiftFile, shift) == Lockstep(xs, ys, shiftFile, shift)
              && Lockstep(ys, pushed, shiftFile, shift) == Lockstep(ys, xs, shiftFile, shift)
              && Differing(pushed, ys) == Differing(xs, ys)
              && Differing(ys, pushed) == Differing(ys, xs)
  {
    FirstItem(lexer, line, rest, file);
    if lexer.tokenize(line) == Some([]) {
      GapIsDelay(lexer, rest, file, 0, 1);
      DelayAgainstToken(Items(lexer, rest, file, 0), ys, shiftFile, shift, 1);
      DelayAgainstToken(ys, Items(lexer, rest, file, 0), shiftFile, shift, 1);
      assert PushedItems(lexer, line, rest, file) == Items(lexer, rest, file, 0);
    }
  }

  /** Queuing two different lines at a common line boundary preserves the verdict. */
  lemma PushedPair(lexer: Lexer, lineX: string, restX: seq<string>, fileX: string, lineY: string, restY: seq<string>,
      fileY: string, shiftFile: Option<string>, shift: Option<int>)
    requires lineX != lineY
    ensures var xs, ys := LineItems(lexer, lineX, restX, fileX, 0), LineItems(lexer, lineY, restY, fileY, 0);
            if lexer.tokenize(lineX).None? || lexer.tokenize(lineY).None? then
              Lockstep(xs, ys, shiftFile, shift) == Fail(None)
            else
              var pushedX, pushedY := PushedItems(lexer, lineX, restX, fileX), PushedItems(lexer, lineY, restY, fileY);
              && Lockstep(pushedX, pushedY, shiftFile, shift) == Lockstep(xs, ys, shiftFile, shift)
              && Differing(pushedX, pushedY) == Differing(xs, ys)
  {
    FirstItem(lexer, lineX, restX, fileX);
    FirstItem(lexer, lineY, restY, fileY);
    if lexer.tokenize(lineX).Some? && lexer.tokenize(lineY).Some? {
      var xs, ys := LineItems(lexer, lineX, restX, fileX, 0), LineItems(lexer, lineY, restY, fileY, 0);
      if lexer.tokenize(lineX).value != [] {
        PushedAgainstToken(lexer, lineY, restY, fileY, xs, shiftFile, shift);
      } else if lexer.tokenize(lineY).value != [] {
        PushedAgainstToken(lexer, lineX, restX, fileX, ys, shiftFile, shift);
      } else {
        var itemsX, itemsY := Items(lexer, restX, fileX, 0), Items(lexer, restY, fileY, 0);
        GapIsDelay(lexer, restX, fileX, 0, 1);
        GapIsDelay(lexer, restY, fileY, 0, 1);
        DelayBoth(itemsX, itemsY, shiftFile, shift, 1);
        assert PushedItems(lexer, lineX, restX, fileX) == itemsX && PushedItems(lexer, lineY, restY, fileY) == itemsY;
      }
    }
  }

  /** A side which has ended agrees with the other only where that one has ended too. */
  lemma EndOfStream(lexer: Lexer, line: string, rest: seq<string>, file: string, shiftFile: Option<string>,
      shift: Option<int>)
    ensures Lockstep([End(0)], [End(0)], shiftFile, shift) == Pass(shift) && Differing([End(0)], [End(0)]) == 0
    ensures Lockstep([End(0)], LineItems(lexer, line, rest, file, 0), shiftFile, shift) == Fail(None)
    ensures Lockstep(LineItems(lexer, line, rest, file, 0), [End(0)], shiftFile, shift) == Fail(None)
  {
    FirstItem(lexer, line, rest, file);
  }

  /** What comparing the two front tokens does to the verdict. */
  lemma PopPair(xs: seq<Item>, ys: seq<Item>, shiftFile: Option<string>, shift: Option<int>)
    requires xs != [] && ys != [] && xs[0].Tok? && ys[0].Tok?
    ensures var x, y := xs[0], ys[0];
            var verdict := Lockstep(xs, ys, shiftFile, shift);
            && Differing(xs, ys) == (if x.text == y.text then 0 else 1) + Differing(xs[1..], ys[1..])
            && if x.text == y.text then verdict == Lockstep(xs[1..], ys[1..], shiftFile, shift)
               else if Shiftable(x, y, shiftFile) && Admits(shift, IntOf(y.text) - IntOf(x.text)) then
                 verdict == Lockstep(xs[1..], ys[1..], shiftFile, Some(IntOf(y.text) - IntOf(x.text)))
               else verdict == Fail(Some((x, y)))
  {
  }

  // ---------------------------------------------------------------- the imperative side

  /** The next line which is not a line marker, what is left after it, and the file it is attributed to. */
  function NextContent(lexer: Lexer, lines: seq<string>, file: string): (Option<string>, seq<string>, string)
    decreases |lines|
  {
    if lines == [] then (None, [], file)
    else
      match MarkerOf(lexer, lines[0])
      case Some(next) => NextContent(lexer, lines[1..], next)
      case None => (Some(lines[0]), lines[1..], file)
  }

  lemma {:induction false} NextContentItems(lexer: Lexer, lines: seq<string>, file: string)
    ensures var (line, rest, now) := NextContent(lexer, lines, file);
            match line
            case None => rest == [] && Items(lexer, lines, file, 0) == [End(0)]
            case Some(l) => |rest| < |lines| && Items(lexer, lines, file, 0) == LineItems(lexer, l, rest, now, 0)
    decreases |lines|
  {
    if lines != [] && MarkerOf(lexer, lines[0]).Some? {
      NextContentItems(lexer, lines[1..], MarkerOf(lexer, lines[0]).value);
    }
  }

  /** One side of the comparison. */
  class Stream {
    const lexer: Lexer
    var handle: seq<string>
    var currentFile: string
    var pending: seq<(string, string)>
    var lines: nat

    constructor (lexer: Lexer, handle: seq<string>)
      ensures this.lexer == lexer && this.handle == handle
      ensures currentFile == "<unknown>" && pending == [] && lines == 0
      ensures Remaining() == Items(lexer, handle, "<unknown>", 0)
    {
      this.lexer := lexer;
      this.handle := handle;
      currentFile := "<unknown>";
      pending := [];
      lines := 0;
    }

    /** Everything this side still has to offer. */
    ghost function Remaining(): (items: seq<Item>)
      reads this
      ensures |items| > 0
    {
      Queued(pending) + Items(lexer, handle, currentFile, 0)
    }

    method NextLine() returns (line: Option<string>)
      modifies this`handle, this`currentFile, this`lines
      ensures (line, handle, currentFile) == NextContent(lexer, old(handle), old(currentFile))
      ensures lines == old(lines) + if line.Some? then 1 else 0
    {
      while handle != []
        invariant NextContent(lexer, handle, currentFile) == NextContent(lexer, old(handle), old(currentFile))
        invariant lines == old(lines)
        decreases |handle|
      {
        var next := handle[0];
        handle := handle[1..];
        var marker := MarkerOf(lexer, next);
        if marker.Some? {
          currentFile := marker.value;
          continue;
        }
        lines := lines + 1;
        return Some(next);
      }
      line := None;
    }

    /** Appends the tokens of a line; `raised` where it carries a raw string literal. */
    method PushLine(line: string) returns (raised: bool)
      modifies this`pending
      ensures raised == lexer.tokenize(line).None?
      ensures if raised then pending == old(pending)
              else Queued(pending) == Queued(old(pending)) + Tokens(lexer.tokenize(line).value, currentFile)
    {
      var found := lexer.tokenize(line);
      if found.None? {
        return true;
      }
      var texts := found.value;
      for i := 0 to |texts|
        invariant |pending| == |old(pending)| + i
        invariant forall k :: 0 <= k < |old(pending)| ==> pending[k] == old(pending)[k]
        invariant forall k :: 0 <= k < i ==> pending[|old(pending)| + k] == (texts[k], currentFile)
      {
        pending := pending + [(texts[i], currentFile)];
      }
      raised := false;
    }

    /** Appends the tokens of the next content line.  The other side is waiting with a token, so `ys`,
        what it offers, compares with this side just as before. */
    method Refill(ghost ys: seq<Item>, ghost shiftFile: Option<string>, ghost shift: Option<int>) returns (r: Pulled)
      requires pending == [] && ys != [] && ys[0].Tok?
      modifies this
      ensures r != Got ==>
                && Lockstep(old(Remaining()), ys, shiftFile, shift) == Fail(None)
                && Lockstep(ys, old(Remaining()), shiftFile, shift) == Fail(None)
      ensures r == Got ==>
                && |handle| < |old(handle)|
                && Lockstep(Remaining(), ys, shiftFile, shift) == Lockstep(old(Remaining()), ys, shiftFile, shift)
                && Lockstep(ys, Remaining(), shiftFile, shift) == Lockstep(ys, old(Remaining()), shiftFile, shift)
                && Differing(Remaining(), ys) == Differing(old(Remaining()), ys)
                && Differing(ys, Remaining()) == Differing(ys, old(Remaining()))
    {
      hide Items, LineItems;
      NextContentItems(lexer, handle, currentFile);
      assert Remaining() == Items(lexer, handle, currentFile, 0);
      var line := NextLine();
      if line.None? {
        return Ended;
      }
      PushedAgainstToken(lexer, line.value, handle, currentFile, ys, shiftFile, shift);
      var raised := PushLine(line.value);
      assert !raised ==> Remaining() == PushedItems(lexer, line.value, handle, currentFile);
      r := if raised then RawFound else Got;
    }
  }

  /** What asking a side for more tokens came to. */
  datatype Pulled = Got | Ended | RawFound

  function Queued(pending: seq<(string, string)>): (items: seq<Item>)
    ensures |items| == |pending|
    ensures forall i :: 0 <= i < |pending| ==> items[i] == Tok(pending[i].0, pending[i].1)
  {
    seq(|pending|, i requires 0 <= i < |pending| => Tok(pending[i].0, pending[i].1))
  }

  datatype Failure =
    | EndedFirst(beforeLine: nat, afterLine: nat)
    | BeforeEnded(left: nat)
    | AfterEnded(left: nat)
    | ShiftDiffers(delta: int, shift: int, literalBefore: string, literalAfter: string)
    | TokenDiffers(position: nat, before: (string, string), after: (string, string))
    | RawLiteral
    | PreprocessorFailed(side: nat, exit: int)

  /** What a reported failure says about the flattened sides. */
  predicate Explains(failure: Failure, verdict: Verdict, shiftFile: Option<string>) {
    match failure
    case TokenDiffers(_, x, y) =>
      && verdict == Fail(Some((Tok(x.0, x.1), Tok(y.0, y.1))))
      && !Shiftable(Tok(x.0, x.1), Tok(y.0, y.1), shiftFile)
    case ShiftDiffers(delta, shift, x, y) =>
      && shiftFile.Some? && IsDecimal(x) && IsDecimal(y)
      && verdict == Fail(Some((Tok(x, shiftFile.value), Tok(y, shiftFile.value))))
      && delta == IntOf(y) - IntOf(x) != shift
    case _ => verdict == Fail(None)
  }

  datatype Comparison = Raised | Finished(failures: seq<Failure>, shift: Option<int>, compared: nat, shifted: nat)

  /** The step taken where both sides sit on a line boundary.  `uneven` holds the two line counts
      where exactly one side has ended. */
  method NextLines(before: Stream, after: Stream, ghost shiftFile: Option<string>, ghost shift: Option<int>)
    returns (uneven: Option<(nat, nat)>, r: Pulled)
    requires before != after && before.lexer == after.lexer
    requires before.pending == [] && after.pending == []
    modifies before, after
    ensures r == RawFound || (r == Ended && uneven.Some?) ==>
              Lockstep(old(before.Remaining()), old(after.Remaining()), shiftFile, shift) == Fail(None)
    ensures r == Ended && uneven.None? ==>
              && Lockstep(old(before.Remaining()), old(after.Remaining()), shiftFile, shift) == Pass(shift)
              && Differing(old(before.Remaining()), old(after.Remaining())) == 0
    ensures r == Got ==>
              && |before.handle| + |after.handle| < |old(before.handle)| + |old(after.handle)|
              && Lockstep(before.Remaining(), after.Remaining(), shiftFile, shift)
                 == Lockstep(old(before.Remaining()), old(after.Remaining()), shiftFile, shift)
              && Differing(before.Remaining(), after.Remaining())
                 == Differing(old(before.Remaining()), old(after.Remaining()))
  {
    hide Lockstep, Differing, Items, LineItems;
    NextContentItems(before.lexer, before.handle, before.currentFile);
    NextContentItems(after.lexer, after.handle, after.currentFile);
    assert before.Remaining() == Items(before.lexer, before.handle, before.currentFile, 0);
    assert after.Remaining() == Items(after.lexer, after.handle, after.currentFile, 0);
    var lineBefore := before.NextLine();
    var lineAfter := after.NextLine();
    uneven := None;
    EndOfStream(before.lexer, if lineBefore.Some? then lineBefore.value
        else "", before.handle, before.currentFile, shiftFile, shift);
    EndOfStream(after.lexer, if lineAfter.Some? then lineAfter.value
        else "", after.handle, after.currentFile, shiftFile, shift);
    if lineBefore.None? && lineAfter.None? {
      return None, Ended;
    }
    if lineBefore.None? || lineAfter.None? {
      return Some((before.lines, after.lines)), Ended;
    }
    hide NextContent;
    assert before.Remaining() == Items(before.lexer, before.handle, before.currentFile, 0);
    assert after.Remaining() == Items(after.lexer, after.handle, after.currentFile, 0);
    if lineBefore == lineAfter {
      CommonLineDrops(before.lexer, lineBefore.value, before.handle, before.currentFile,
                      after.handle, after.currentFile, shiftFile, shift);
      return None, Got;
    }
    PushedPair(before.lexer, lineBefore.value, before.handle, before.currentFile,
               lineAfter.value, after.handle, after.currentFile, shiftFile, shift);
    var raised := before.PushLine(lineBefore.value);
    if raised {
      return None, RawFound;
    }
    raised := after.PushLine(lineAfter.value);
    if raised {
      return None, RawFound;
    }
    assert before.Remaining() == PushedItems(before.lexer, lineBefore.value, before.handle, before.currentFile);
    assert after.Remaining() == PushedItems(after.lexer, lineAfter.value, after.handle, after.currentFile);
    r := Got;
  }

  /** The comparison loop.  It reports no failure exactly when the flattened sides pass, and then the
      shift and the number of shifted literals are those of the whole streams, skipped lines included. */
  method CompareStreams(before: Stream, after: Stream, shiftFile: Option<string>, shift0: Option<int>)
    returns (r: Comparison)
    requires before != after && before.lexer == after.lexer
    modifies before, after
    ensures var verdict := Lockstep(old(before.Remaining()), old(after.Remaining()), shiftFile, shift0);
            match r
            case Raised => verdict == Fail(None)
            case Finished(failures, shift, compared, shifted) =>
              && shifted <= compared
              && (shift0.Some? ==> shift == shift0)
              && if failures == []
                 then verdict == Pass(shift) && shifted == Differing(old(before.Remaining()), old(after.Remaining()))
                 else |failures| == 1 && Explains(failures[0], verdict, shiftFile)
  {
    hide Lockstep, Differing, Items, IntOf;
    var failures: seq<Failure> := [];
    var shift := shift0;
    var compared, shifted := 0, 0;
    ghost var xs0, ys0 := before.Remaining(), after.Remaining();
    ghost var verdict := Lockstep(xs0, ys0, shiftFile, shift0);

    while true
      invariant failures == [] && shifted <= compared && (shift0.Some? ==> shift == shift0)
      invariant Lockstep(before.Remaining(), after.Remaining(), shiftFile, shift) == verdict
      invariant shifted + Differing(before.Remaining(), after.Remaining()) == Differing(xs0, ys0)
      decreases |before.handle| + |after.handle|, |before.pending| + |after.pending|
    {
      ghost var xs, ys := before.Remaining(), after.Remaining();

      if before.pending == [] && after.pending == [] {
        var lines, pulled := NextLines(before, after, shiftFile, shift);
        match pulled {
          case RawFound => return Raised;
          case Got => continue;
          case Ended =>
            if lines.Some? {
              failures := failures + [EndedFirst(lines.value.0, lines.value.1)];
            }
            break;
        }
      }

      if before.pending == [] {
        assert ys[0] == Tok(after.pending[0].0, after.pending[0].1);
        var pulled := before.Refill(ys, shiftFile, shift);
        match pulled {
          case RawFound => return Raised;
          case Got => continue;
          case Ended =>
            failures := failures + [BeforeEnded(|after.pending|)];
            break;
        }
      }

      if after.pending == [] {
        assert xs[0] == Tok(before.pending[0].0, before.pending[0].1);
        var pulled := after.Refill(xs, shiftFile, shift);
        match pulled {
          case RawFound => return Raised;
          case Got => continue;
          case Ended =>
            failures := failures + [AfterEnded(|before.pending|)];
            break;
        }
      }

      var (tokenBefore, fileBefore) := before.pending[0];
      var (tokenAfter, fileAfter) := after.pending[0];
      before.pending := before.pending[1..];
      after.pending := after.pending[1..];
      assert before.Remaining() == xs[1..] && after.Remaining() == ys[1..];
      PopPair(xs, ys, shiftFile, shift);
      compared := compared + 1;
      if tokenBefore == tokenAfter {
        continue;
      }
      if shiftFile.Some? && fileBefore == shiftFile.value && fileAfter == shiftFile.value
         && IsDecimal(tokenBefore) && IsDecimal(tokenAfter) {
        var delta := IntOf(tokenAfter) - IntOf(tokenBefore);
        if shift.None? {
          shift := Some(delta);
        }
        if shift == Some(delta) {
          shifted := shifted + 1;
          continue;
        }
        failures := failures + [ShiftDiffers(delta, shift.value, tokenBefore, tokenAfter)];
        break;
      }
      failures := failures + [TokenDiffers(compared, (tokenBefore, fileBefore), (tokenAfter, fileAfter))];
      break;
    }
    r := Finished(failures, shift, compared, shifted);
  }

  // ---------------------------------------------------------------- units and runs

  /** What the two preprocessors wrote for one translation unit, and how they exited. */
  datatype Unit = Unit(before: seq<string>, after: seq<string>, exitBefore: int, exitAfter: int)

  function Flatten(lexer: Lexer, lines: seq<string>): seq<Item> {
    Items(lexer, lines, "<unknown>", 0)
  }

  function UnitVerdict(lexer: Lexer, unit: Unit, shiftFile: Option<string>, shift: Option<int>): Verdict {
    Lockstep(Flatten(lexer, unit.before), Flatten(lexer, unit.after), shiftFile, shift)
  }

  /** One unit is clean for the amount `d`. */
  ghost predicate UnitAgrees(lexer: Lexer, unit: Unit, shiftFile: Option<string>, d: int) {
    && unit.exitBefore == 0 && unit.exitAfter == 0
    && AllAgree(Flatten(lexer, unit.before), Flatten(lexer, unit.after), shiftFile, d)
  }

  method CompareUnit(lexer: Lexer, unit: Unit, shiftFile: Option<string>, shift0: Option<int>)
    returns (failures: seq<Failure>, shift: Option<int>, compared: nat, shifted: nat)
    ensures failures == [] ==>
              && forall d :: Admits(shift, d) <==> Admits(shift0, d) && UnitAgrees(lexer, unit, shiftFile, d)
    ensures failures != [] ==> forall d :: Admits(shift0, d) ==> !UnitAgrees(lexer, unit, shiftFile, d)
    ensures failures == [] ==> shifted == Differing(Flatten(lexer, unit.before), Flatten(lexer, unit.after))
    ensures unit.exitBefore == 0 && unit.exitAfter == 0 && UnitVerdict(lexer, unit, shiftFile, shift0).Fail? ==>
              |failures| == 1 && (failures == [RawLiteral]
                  || Explains(failures[0], UnitVerdict(lexer, unit, shiftFile, shift0), shiftFile))
    ensures shifted <= compared
  {
    var before := new Stream(lexer, unit.before);
    var after := new Stream(lexer, unit.after);
    assert before.Remaining() == Flatten(lexer, unit.before);
    assert after.Remaining() == Flatten(lexer, unit.after);
    LockstepIsAgreement(before.Remaining(), after.Remaining(), shiftFile, shift0);
    hide Lockstep, Differing, Items, Agree, Explains;
    var r := CompareStreams(before, after, shiftFile, shift0);
    if r.Raised? {
      return [RawLiteral], shift0, 0, 0;
    }
    failures, shift, compared, shifted := r.failures, r.shift, r.compared, r.shifted;
    var stoppedEarly := failures != [];
    if !stoppedEarly {
      if unit.exitBefore != 0 {
        failures := failures + [PreprocessorFailed(0, unit.exitBefore)];
      }
      if unit.exitAfter != 0 {
        failures := failures + [PreprocessorFailed(1, unit.exitAfter)];
      }
    }
  }

  /** Every unit of a run is clean for the one amount `d`. */
  ghost predicate RunAgrees(lexer: Lexer, units: seq<Unit>, shiftFile: Option<string>, d: int) {
    forall k :: 0 <= k < |units| ==> UnitAgrees(lexer, units[k], shiftFile, d)
  }

  /** In every unit both preprocessors succeeded, and the sides are equally long and pair off with every pair equal or
      integers of the shift file which are `d` apart. */
  ghost predicate RunShifts(lexer: Lexer, units: seq<Unit>, shiftFile: Option<string>, d: int) {
    forall k :: 0 <= k < |units| ==> UnitShifts(lexer, units[k], shiftFile, d)
  }

  ghost predicate UnitShifts(lexer: Lexer, unit: Unit, shiftFile: Option<string>, d: int) {
    var xs, ys := Flatten(lexer, unit.before), Flatten(lexer, unit.after);
    && unit.exitBefore == 0 && unit.exitAfter == 0
    && |xs| == |ys| && forall i :: 0 <= i < |xs| ==> ShiftedBy(xs[i], ys[i], shiftFile, d)
  }

  lemma RunAgreesMeans(lexer: Lexer, units: seq<Unit>, shiftFile: Option<string>, d: int)
    ensures RunAgrees(lexer, units, shiftFile, d) <==> RunShifts(lexer, units, shiftFile, d)
  {
    hide Agree, ShiftedBy, Items;
    forall x, y ensures Agree(x, y, shiftFile, d) <==> ShiftedBy(x, y, shiftFile, d) {
      AgreeMeans(x, y, shiftFile, d);
    }
  }

  lemma NoUnit(lexer: Lexer, shiftFile: Option<string>)
    ensures forall d :: RunAgrees(lexer, [], shiftFile, d)
    ensures TotalDiffering(lexer, []) == 0
  {
  }

  lemma OneMoreUnit(lexer: Lexer, units: seq<Unit>, unit: Unit, shiftFile: Option<string>)
    ensures forall d :: RunAgrees(lexer, units + [unit], shiftFile, d) <==>
                          RunAgrees(lexer, units, shiftFile, d) && UnitAgrees(lexer, unit, shiftFile, d)
    ensures TotalDiffering(lexer, units + [unit]) ==
            TotalDiffering(lexer, units) + Differing(Flatten(lexer, unit.before), Flatten(lexer, unit.after))
  {
    hide UnitAgrees, Differing, Flatten;
    var all := units + [unit];
    assert all[..|units|] == units && all[|units|] == unit;
    forall d | RunAgrees(lexer, all, shiftFile, d) ensures RunAgrees(lexer, units, shiftFile, d) {
      assert forall k :: 0 <= k < |units| ==> all[k] == units[k];
    }
  }

  function TotalDiffering(lexer: Lexer, units: seq<Unit>): nat {
    if units == [] then 0
    else TotalDiffering(lexer, units[..|units| - 1])
         + Differing(Flatten(lexer, units[|units| - 1].before), Flatten(lexer, units[|units| - 1].after))
  }

  /** The loop over the translation units, threading the shift.  Exit code 0 means that one amount
      explains every difference of the whole run; 3 means there was nothing to compare. */
  method CompareRun(lexer: Lexer, units: seq<Unit>, shiftFile: Option<string>)
    returns (exit: int, shift: Option<int>, shifted: nat)
    ensures exit == 3 <==> units == []
    ensures exit == 0 <==> units != [] && exists d :: RunShifts(lexer, units, shiftFile, d)
    ensures exit == 0 ==> forall d :: Admits(shift, d) <==> RunShifts(lexer, units, shiftFile, d)
    ensures exit == 0 ==> shifted == TotalDiffering(lexer, units)
    ensures exit in {0, 1, 3}
  {
    if units == [] {
      return 3, None, 0;
    }
    hide RunAgrees, RunShifts, UnitAgrees, TotalDiffering, Flatten, Differing;
    NoUnit(lexer, shiftFile);
    shift := None;
    shifted := 0;
    var failures: seq<(nat, Failure)> := [];
    for i := 0 to |units|
      invariant failures == [] ==> forall d :: Admits(shift, d) <==> RunAgrees(lexer, units[..i], shiftFile, d)
      invariant failures == [] ==> shifted == TotalDiffering(lexer, units[..i])
      invariant failures != [] ==> forall d :: !RunAgrees(lexer, units[..i], shiftFile, d)
    {
      var unitFailures, unitShift, unitCompared, unitShifted := CompareUnit(lexer, units[i], shiftFile, shift);
      assert units[..i + 1] == units[..i] + [units[i]];
      OneMoreUnit(lexer, units[..i], units[i], shiftFile);
      shift := unitShift;
      shifted := shifted + unitShifted;
      failures := failures + seq(|unitFailures|, k requires 0 <= k < |unitFailures| => (i, unitFailures[k]));
    }
    exit := if failures == [] then 0 else 1;
    assert units[..|units|] == units;
    if exit == 0 {
      var d := if shift.Some? then shift.value else 0;
      assert Admits(shift, d);
    }
    forall d ensures RunAgrees(lexer, units, shiftFile, d) <==> RunShifts(lexer, units, shiftFile, d) {
      RunAgreesMeans(lexer, units, shiftFile, d);
    }
  }

  /** Items which differ in text. */
  ghost predicate DiffersAt(xs: seq<Item>, ys: seq<Item>, i: nat) {
    i < |xs| && i < |ys| && xs[i] != ys[i] && !(xs[i].Tok? && ys[i].Tok? && xs[i].text == ys[i].text)
  }

  ghost function Differences(xs: seq<Item>, ys: seq<Item>): (positions: set<int>)
    ensures forall i :: i in positions <==> 0 <= i && DiffersAt(xs, ys, i)
  {
    set i | 0 <= i < |xs| && DiffersAt(xs, ys, i)
  }

  /** The count of differences is the number of positions which differ. */
  lemma {:induction false} DifferingCounts(xs: seq<Item>, ys: seq<Item>)
    ensures Differing(xs, ys) == |Differences(xs, ys)|
    decreases |xs|
  {
    var positions := Differences(xs, ys);
    if xs == [] || ys == [] {
      assert positions == {};
    } else {
      var rest := Differences(xs[1..], ys[1..]);
      DifferingCounts(xs[1..], ys[1..]);
      forall i ensures i in positions - {0} <==> i - 1 in rest {
        LaterDifference(xs, ys, i);
      }
      OneUp(rest, positions - {0});
      assert 0 in positions <==> !Same(xs[0], ys[0]);
    }
  }

  lemma LaterDifference(xs: seq<Item>, ys: seq<Item>, i: int)
    requires xs != [] && ys != []
    ensures i > 0 && DiffersAt(xs, ys, i) <==> i - 1 >= 0 && DiffersAt(xs[1..], ys[1..], i - 1)
  {
  }

  // ---------------------------------------------------------------- what the verdict depends on

  /** Swapping the sides keeps the verdict and negates the shift. */
  lemma SwapNegates(xs: seq<Item>, ys: seq<Item>, shiftFile: Option<string>)
    ensures Lockstep(xs, ys, shiftFile, None).Pass? <==> Lockstep(ys, xs, shiftFile, None).Pass?
    ensures var there, back := Lockstep(xs, ys, shiftFile, None), Lockstep(ys, xs, shiftFile, None);
            forall s, t :: there == Pass(Some(s)) && back == Pass(Some(t)) ==> t == -s
  {
    hide Lockstep, IntOf, IsDecimal;
    LockstepIsAgreement(xs, ys, shiftFile, None);
    LockstepIsAgreement(ys, xs, shiftFile, None);
    forall d ensures AllAgree(xs, ys, shiftFile, d) <==> AllAgree(ys, xs, shiftFile, -d) {
      forall i | 0 <= i < |xs| && |xs| == |ys| ensures Agree(xs[i], ys[i], shiftFile, d) <==>
          Agree(ys[i], xs[i], shiftFile, -d) {
      }
    }
    if e :| AllAgree(ys, xs, shiftFile, e) {
      assert e == -(-e);
      assert AllAgree(xs, ys, shiftFile, -e);
    }
    if s, t :|
      && Lockstep(xs, ys, shiftFile, None) == Pass(Some(s))
      && Lockstep(ys, xs, shiftFile, None) == Pass(Some(t))
    {
      assert Admits(Some(s), s) && AllAgree(xs, ys, shiftFile, s) && AllAgree(ys, xs, shiftFile, -s);
      assert Admits(Some(t), -s);
    }
  }

  /** A side no line of which carries a raw string literal. */
  predicate Plain(lexer: Lexer, lines: seq<string>) {
    forall i :: 0 <= i < |lines| && MarkerOf(lexer, lines[i]).None? ==> lexer.tokenize(lines[i]).Some?
  }

  /** The tokens of a side with their files; line structure is forgotten. */
  function TokenSeq(lexer: Lexer, lines: seq<string>, file: string): seq<Item>
    decreases |lines|
  {
    if lines == [] then []
    else
      match MarkerOf(lexer, lines[0])
      case Some(next) => TokenSeq(lexer, lines[1..], next)
      case None =>
        match lexer.tokenize(lines[0])
        case None => TokenSeq(lexer, lines[1..], file)
        case Some(texts) => Tokens(texts, file) + TokenSeq(lexer, lines[1..], file)
  }

  /** How many token-free content lines a side ends with, `count` having gone by before. */
  function TailGap(lexer: Lexer, lines: seq<string>, count: nat): nat
    decreases |lines|
  {
    if lines == [] then count
    else if MarkerOf(lexer, lines[0]).Some? then TailGap(lexer, lines[1..], count)
    else TailGap(lexer, lines[1..], if lexer.tokenize(lines[0]) == Some([]) then count + 1 else 0)
  }

  /** The file named by the last line marker above line `i`, or the one before there was any. */
  function FileAbove(lexer: Lexer, lines: seq<string>, i: nat, file: string): string
    requires i <= |lines|
  {
    if i == 0 then file
    else if MarkerOf(lexer, lines[i - 1]).Some? then MarkerOf(lexer, lines[i - 1]).value
    else FileAbove(lexer, lines, i - 1, file)
  }

  /** The tokens of one line, with the file they are attributed to. */
  function TokensAt(lexer: Lexer, lines: seq<string>, i: nat, file: string): seq<Item>
    requires i < |lines|
  {
    if MarkerOf(lexer, lines[i]).Some? || lexer.tokenize(lines[i]).None? then []
    else Tokens(lexer.tokenize(lines[i]).value, FileAbove(lexer, lines, i, file))
  }

  lemma {:induction false} FileAboveFirst(lexer: Lexer, lines: seq<string>, i: nat, file: string)
    requires 0 < i <= |lines|
    ensures var next := if MarkerOf(lexer, lines[0]).Some? then MarkerOf(lexer, lines[0]).value else file;
            FileAbove(lexer, lines, i, file) == FileAbove(lexer, lines[1..], i - 1, next)
    decreases i
  {
    hide MarkerOf;
    if i == 1 {
    } else {
      FileAboveFirst(lexer, lines, i - 1, file);
    }
  }

  /** A side's tokens are those of its lines, one after the other, each attributed to the file which the last line
      marker above its line names. */
  lemma {:induction false} TokensMean(lexer: Lexer, lines: seq<string>, file: string)
    ensures TokenSeq(lexer, lines, file) ==
            Concat(seq(|lines|, i requires 0 <= i < |lines| => TokensAt(lexer, lines, i, file)))
    decreases |lines|
  {
    hide MarkerOf, FileAbove;
    if lines == [] {
    } else {
      var next := if MarkerOf(lexer, lines[0]).Some? then MarkerOf(lexer, lines[0]).value else file;
      var all := seq(|lines|, i requires 0 <= i < |lines| => TokensAt(lexer, lines, i, file));
      var rest := seq(|lines[1..]|, i requires 0 <= i < |lines[1..]| => TokensAt(lexer, lines[1..], i, next));
      TokensMean(lexer, lines[1..], next);
      forall i | 0 <= i < |rest| ensures rest[i] == all[1..][i] {
        FileAboveFirst(lexer, lines, i + 1, file);
      }
      assert rest == all[1..];
      NoFileAbove(lexer, lines, file);
    }
  }

  lemma NoFileAbove(lexer: Lexer, lines: seq<string>, file: string)
    ensures FileAbove(lexer, lines, 0, file) == file
  {
  }

  lemma {:induction false} PlainItems(lexer: Lexer, lines: seq<string>, file: string, gap: nat)
    requires Plain(lexer, lines)
    ensures Items(lexer, lines, file, gap) == TokenSeq(lexer, lines, file) + [End(TailGap(lexer, lines, gap))]
    decreases |lines|
  {
    if lines == [] {
    } else {
      assert Plain(lexer, lines[1..]);
      match MarkerOf(lexer, lines[0])
      case Some(next) => PlainItems(lexer, lines[1..], next, gap);
      case None =>
        if lexer.tokenize(lines[0]) == Some([]) {
          PlainItems(lexer, lines[1..], file, gap + 1);
        } else {
          PlainItems(lexer, lines[1..], file, 0);
        }
    }
  }

  /** Without raw literals the verdict is decided by the two token sequences and by whether the sides
      end in equally many token-free lines; nothing else about line layout matters. */
  lemma TokensDecide(lexer: Lexer, before: seq<string>, after: seq<string>, shiftFile: Option<string>,
      shift: Option<int>)
    requires Plain(lexer, before) && Plain(lexer, after)
    ensures Lockstep(Flatten(lexer, before), Flatten(lexer, after), shiftFile, shift).Pass? <==>
            && TailGap(lexer, before, 0) == TailGap(lexer, after, 0)
            && exists d :: Admits(shift, d)
                        && AllAgree(TokenSeq(lexer, before, "<unknown>"), TokenSeq(lexer, after, "<unknown>"),
                            shiftFile, d)
  {
    var xs, ys := TokenSeq(lexer, before, "<unknown>"), TokenSeq(lexer, after, "<unknown>");
    var x, y := End(TailGap(lexer, before, 0)), End(TailGap(lexer, after, 0));
    PlainItems(lexer, before, "<unknown>", 0);
    PlainItems(lexer, after, "<unknown>", 0);
    LockstepIsAgreement(xs + [x], ys + [y], shiftFile, shift);
    forall d { AgreeAtEnd(xs, x, ys, y, shiftFile, d); }
  }

  lemma AgreeAtEnd(xs: seq<Item>, x: Item, ys: seq<Item>, y: Item, shiftFile: Option<string>, d: int)
    requires x.End? && y.End?
    ensures AllAgree(xs + [x], ys + [y], shiftFile, d) <==> x == y && AllAgree(xs, ys, shiftFile, d)
  {
    var us, vs := xs + [x], ys + [y];
    if AllAgree(us, vs, shiftFile, d) {
      assert Agree(us[|xs|], vs[|xs|], shiftFile, d);
      forall i | 0 <= i < |xs| ensures Agree(xs[i], ys[i], shiftFile, d) {
        assert Agree(us[i], vs[i], shiftFile, d);
      }
    }
  }

  /** Regrouping tokens into lines, with the same files, never changes the verdict as long as the tail
      of token-free lines is kept. */
  lemma RegroupingIsInvisible(lexer: Lexer, before: seq<string>, after: seq<string>, before': seq<string>,
      after': seq<string>, shiftFile: Option<string>, shift: Option<int>)
    requires Plain(lexer, before) && Plain(lexer, after) && Plain(lexer, before') && Plain(lexer, after')
    requires TokenSeq(lexer, before, "<unknown>") == TokenSeq(lexer, before', "<unknown>")
    requires TokenSeq(lexer, after, "<unknown>") == TokenSeq(lexer, after', "<unknown>")
    requires TailGap(lexer, before, 0) == TailGap(lexer, before', 0)
        && TailGap(lexer, after, 0) == TailGap(lexer, after', 0)
    ensures Lockstep(Flatten(lexer, before), Flatten(lexer, after), shiftFile, shift)
         == Lockstep(Flatten(lexer, before'), Flatten(lexer, after'), shiftFile, shift)
  {
    PlainItems(lexer, before, "<unknown>", 0);
    PlainItems(lexer, after, "<unknown>", 0);
    PlainItems(lexer, before', "<unknown>", 0);
    PlainItems(lexer, after', "<unknown>", 0);
  }

  // ---------------------------------------------------------------- raw string literals

  /** Identical sides pass, whatever is on their lines. */
  lemma {:induction false} IdenticalSidesPass(xs: seq<Item>, shiftFile: Option<string>, shift: Option<int>)
    ensures Lockstep(xs, xs, shiftFile, shift) == Pass(shift)
  {
    if xs == [] {
    } else {
      IdenticalSidesPass(xs[1..], shiftFile, shift);
    }
  }

  ghost predicate TokensAgree(xs: seq<Item>, ys: seq<Item>, shiftFile: Option<string>, d: int) {
    |xs| == |ys| && forall i :: 0 <= i < |xs| && xs[i].Tok? && ys[i].Tok? ==> Agree(xs[i], ys[i], shiftFile, d)
  }

  /** Every raw-literal line, and the end of the stream, is answered at the same item position by the
      same line with the same number of token-free lines before it. */
  ghost predicate Answered(xs: seq<Item>, ys: seq<Item>) {
    |xs| == |ys| && forall i :: 0 <= i < |xs| && !(xs[i].Tok? && ys[i].Tok?) ==> xs[i] == ys[i]
  }

  /** When exactly a raw literal does not keep the comparison from passing: the tool's claim that one
      never can produce a pass holds of a pair of sides whose tokens agree iff some raw line is unanswered. */
  lemma RawLiteralVerdict(xs: seq<Item>, ys: seq<Item>, shiftFile: Option<string>, shift: Option<int>)
    ensures Lockstep(xs, ys, shiftFile, shift).Pass? <==>
            Answered(xs, ys) && exists d :: Admits(shift, d) && TokensAgree(xs, ys, shiftFile, d)
  {
    LockstepIsAgreement(xs, ys, shiftFile, shift);
    forall d ensures AllAgree(xs, ys, shiftFile, d) <==> Answered(xs, ys) && TokensAgree(xs, ys, shiftFile, d) {
      if AllAgree(xs, ys, shiftFile, d) {
        forall i | 0 <= i < |xs| && !(xs[i].Tok? && ys[i].Tok?) ensures xs[i] == ys[i] {
          assert Agree(xs[i], ys[i], shiftFile, d);
        }
      }
      if Answered(xs, ys) && TokensAgree(xs, ys, shiftFile, d) {
        forall i | 0 <= i < |xs| ensures Agree(xs[i], ys[i], shiftFile, d) {
        }
      }
    }
  }

  /** A concrete pass over a raw literal, which the tool's own description rules out. */
  lemma RawLiteralCanPass()
    ensures var lexer := Lexer(_ => None, line => if line == "R\"(x)\";" then None else Some([line]));
            var lines := ["R\"(x)\";"];
            && lexer.tokenize(lines[0]).None?
            && UnitVerdict(lexer, Unit(lines, lines, 0, 0), None, None) == Pass(None)
  {
    var lexer := Lexer(_ => None, line => if line == "R\"(x)\";" then None else Some([line]));
    IdenticalSidesPass(Flatten(lexer, ["R\"(x)\";"]), None, None);
  }

  /** A one-sided token-free tail is the one spurious failure: the token sequences agree, the run fails. */
  lemma TrailingBlankLineFails()
    ensures var lexer := Lexer(_ => None, line => Some(if line == "" then [] else [line]));
            && TokenSeq(lexer, ["x"], "<unknown>") == TokenSeq(lexer, ["x", ""], "<unknown>")
            && UnitVerdict(lexer, Unit(["x"], ["x", ""], 0, 0), None, None).Fail?
  {
    var lexer := Lexer(_ => None, line => Some(if line == "" then [] else [line]));
    var short, long := ["x"], ["x", ""];
    assert short[1..] == [] && long[1..] == [""] && [""][1..] == [];
    assert TokenSeq(lexer, [""], "<unknown>") == [] == TokenSeq(lexer, [], "<unknown>");
    TokensDecide(lexer, short, long, None, None);
    assert TailGap(lexer, [""], 0) == TailGap(lexer, [], 1) == 1;
  }
}
