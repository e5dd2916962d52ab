/** Wrapping text to a width, plainly and with a cache of word widths (bmchat/gui/app.py). */
module TextWrap {
  import opened Collections
  import opened Positional

  type Measure = string -> int
  type Font = int

  const CACHE_MAX := 5000
  const CACHE_DROP := 2500
  const PROBE := 64
  const HALVINGS: nat := 12
  const GROWTHS: nat := 8

  // ---- cutting a word that is too wide ---------------------------------------------------

  function FirstGuess(m: Measure, word: string, width: int): (cut: int)
    requires m(word[..Min(PROBE, |word|)]) > 0
  {
    var probe := word[..Min(PROBE, |word|)];
    Max(1, Min((width * Max(1, |probe|)) / m(probe), |word|))
  }

  function Halved(m: Measure, word: string, width: int, cut: nat, n: nat): nat
    requires cut <= |word|
  {
    if n > 0 && cut > 1 && m(word[..cut]) > width then Halved(m, word, width, cut / 2, n - 1) else cut
  }

  function Grown(m: Measure, word: string, width: int, cut: nat, n: nat): nat
    decreases n
  {
    if n > 0 && cut < |word| && m(word[..cut + 1]) <= width then Grown(m, word, width, cut + 1, n - 1) else cut
  }

  /** Where to cut the word. */
  function FitCut(m: Measure, word: string, width: int): (cut: nat)
    requires word != ""
    ensures 1 <= cut <= |word|
  {
    if m(word[..Min(PROBE, |word|)]) <= 0 then 1
    else
      var guess := FirstGuess(m, word, width);
      HalvedRange(m, word, width, guess, HALVINGS);
      GrownRange(m, word, width, Halved(m, word, width, guess, HALVINGS), GROWTHS);
      Grown(m, word, width, Halved(m, word, width, guess, HALVINGS), GROWTHS)
  }

  lemma {:induction false} HalvedRange(m: Measure, word: string, width: int, cut: nat, n: nat)
    requires 1 <= cut <= |word|
    ensures 1 <= Halved(m, word, width, cut, n) <= cut
  {
    if n > 0 && cut > 1 && m(word[..cut]) > width {
      HalvedRange(m, word, width, cut / 2, n - 1);
    }
  }

  lemma {:induction false} GrownRange(m: Measure, word: string, width: int, cut: nat, n: nat)
    requires 1 <= cut <= |word|
    ensures cut <= Grown(m, word, width, cut, n) <= |word|
    ensures cut == Grown(m, word, width, cut, n) || m(word[..Grown(m, word, width, cut, n)]) <= width
    decreases n
  {
    if n > 0 && cut < |word| && m(word[..cut + 1]) <= width {
      GrownRange(m, word, width, cut + 1, n - 1);
    }
  }

  lemma {:induction false} HalvedFits(m: Measure, word: string, width: int, cut: nat, n: nat)
    requires 1 <= cut <= |word| && cut < Pow(2, n + 1)
    ensures 1 <= Halved(m, word, width, cut, n) <= cut
    ensures Halved(m, word, width, cut, n) == 1 || m(word[..Halved(m, word, width, cut, n)]) <= width
  {
    if n > 0 && cut > 1 && m(word[..cut]) > width {
      HalvedFits(m, word, width, cut / 2, n - 1);
    }
  }

  /** The piece cut off a word of less than 8192 characters fits, unless it is a single character. */
  lemma CutFits(m: Measure, word: string, width: int)
    requires word != "" && |word| < 8192
    ensures FitCut(m, word, width) == 1 || m(word[..FitCut(m, word, width)]) <= width
  {
    hide Halved, Grown;
    if m(word[..Min(PROBE, |word|)]) > 0 {
      var guess := FirstGuess(m, word, width);
      assert Pow(2, 13) == 8192 by {
        assert Pow(2, 4) == 16 && Pow(2, 8) == 256 && Pow(2, 12) == 4096;
      }
      HalvedRange(m, word, width, guess, HALVINGS);
      HalvedFits(m, word, width, guess, HALVINGS);
      GrownRange(m, word, width, Halved(m, word, width, guess, HALVINGS), GROWTHS);
    }
  }

  /** `guess` of `length` characters, but at least one, are as many as a line of `width` holds if `n` of them take
      `d`. */
  predicate IsGuess(guess: int, length: nat, n: int, d: int, width: int) {
    && 1 <= guess <= length
    && (guess == 1 || guess * d <= width * n) && (guess == length || (guess + 1) * d > width * n)
  }

  lemma QuotientIsGuess(guess: int, length: nat, n: int, d: int, width: int)
    requires d > 0 && IsGuess(guess, length, n, d, width)
    ensures Max(1, Min(width * n / d, length)) == guess
  {
    var total := width * n;
    var q := total / d;
    assert q * d <= total < (q + 1) * d by { QuotientBounds(total, d); }
    if q < guess && guess > 1 {
      ProductGrows(q + 1, guess, d);
    } else if q > guess && guess < length {
      ProductGrows(guess + 1, q, d);
    }
  }

  lemma QuotientBounds(total: int, d: int)
    requires d > 0
    ensures total / d * d <= total < (total / d + 1) * d
  {
  }

  lemma ProductGrows(a: int, b: int, d: int)
    requires a <= b && d >= 0
    ensures a * d <= b * d
  {
    assert b * d == a * d + (b - a) * d;
  }

  /** The search starts at the guess from the average width of the first 64 characters or, where that is too wide, at
      half of a part that is; from there it takes in the characters that still fit, and it stops short of the width
      only after eight of them. */
  lemma CutIsLong(m: Measure, word: string, width: int, guess: int) returns (start: nat)
    requires word != "" && m(word[..Min(64, |word|)]) > 0
    requires IsGuess(guess, |word|, Min(64, |word|), m(word[..Min(64, |word|)]), width)
    ensures start == guess || exists wide :: guess >= wide > 1 && m(word[..wide]) > width && start == wide / 2
    ensures var cut := FitCut(m, word, width);
      && start <= cut <= start + 8 && (forall i :: start < i <= cut ==> m(word[..i]) <= width)
      && (cut < start + 8 && cut < |word| ==> m(word[..cut + 1]) > width)
  {
    hide Halved, Grown, FirstGuess;
    FirstIsGuess(m, word, width, guess);
    start := Halved(m, word, width, guess, HALVINGS);
    HalvedRange(m, word, width, guess, HALVINGS);
    HalvedFrom(m, word, width, guess, HALVINGS);
    GrownFits(m, word, width, start, GROWTHS);
  }

  lemma FirstIsGuess(m: Measure, word: string, width: int, guess: int)
    requires word != "" && m(word[..Min(64, |word|)]) > 0
    requires IsGuess(guess, |word|, Min(64, |word|), m(word[..Min(64, |word|)]), width)
    ensures FirstGuess(m, word, width) == guess
  {
    hide IsGuess;
    var probe := word[..Min(64, |word|)];
    assert Max(1, |probe|) == Min(64, |word|);
    QuotientIsGuess(guess, |word|, Min(64, |word|), m(probe), width);
  }

  lemma {:induction false} HalvedFrom(m: Measure, word: string, width: int, cut: nat, n: nat)
    requires 1 <= cut <= |word|
    ensures var start := Halved(m, word, width, cut, n);
      start == cut || exists wide :: cut >= wide > 1 && m(word[..wide]) > width && start == wide / 2
  {
    if n > 0 && cut > 1 && m(word[..cut]) > width {
      HalvedFrom(m, word, width, cut / 2, n - 1);
    }
  }

  lemma {:induction false} GrownFits(m: Measure, word: string, width: int, cut: nat, n: nat)
    requires 1 <= cut <= |word|
    ensures var end := Grown(m, word, width, cut, n);
      && cut <= end <= |word| && end <= cut + n
      && (forall i :: cut < i <= end ==> m(word[..i]) <= width)
      && (end < cut + n && end < |word| ==> m(word[..end + 1]) > width)
    decreases n
  {
    if n > 0 && cut < |word| && m(word[..cut + 1]) <= width {
      GrownFits(m, word, width, cut + 1, n - 1);
    }
  }

  /** With a font whose characters are all `c` wide the piece is exactly as long as the width allows. */
  lemma MonospaceCut(m: Measure, word: string, width: int, c: int, n: int)
    requires word != "" && c > 0 && forall s :: m(s) == c * |s|
    requires n * c <= width < (n + 1) * c
    ensures FitCut(m, word, width) == if n < 1 then 1 else if n < |word| then n else |word|
  {
    hide Halved, Grown, FirstGuess, IsGuess;
    var guess: nat := if n < 1 then 1 else if n < |word| then n else |word|;
    MonospaceGuess(guess, |word|, Min(64, |word|), c, width, n);
    MonospaceFits(guess, |word|, c, width, n);
    ProductGrows(1, c, Min(64, |word|));
    FirstIsGuess(m, word, width, guess);
    FirstStays(m, word, width, guess);
  }

  lemma MonospaceFits(guess: int, length: nat, c: int, width: int, n: int)
    requires length > 0 && c > 0 && n * c <= width < (n + 1) * c
    requires guess == if n < 1 then 1 else if n < length then n else length
    ensures guess == 1 || c * guess <= width
    ensures guess < length ==> c * (guess + 1) > width
  {
    if guess > 1 {
      ProductGrows(guess, n, c);
    }
    if guess < length {
      ProductGrows(n + 1, guess + 1, c);
    }
  }

  lemma MonospaceGuess(guess: int, length: nat, p: nat, c: int, width: int, n: int)
    requires length > 0 && p > 0 && c > 0 && n * c <= width < (n + 1) * c
    requires guess == if n < 1 then 1 else if n < length then n else length
    ensures IsGuess(guess, length, p, c * p, width)
  {
    MonospaceFits(guess, length, c, width, n);
    Rearrange(guess, c, p);
    Rearrange(guess + 1, c, p);
    var (fits, more) := (c * guess, c * (guess + 1));
    if guess > 1 {
      ProductGrows(fits, width, p);
    }
    if guess < length {
      ProductGrows(width + 1, more, p);
      OneMore(width, p);
    }
  }

  lemma Rearrange(a: int, b: int, c: int)
    ensures a * (b * c) == (b * a) * c
  {
    assert b * a == a * b;
  }

  lemma OneMore(a: int, b: int)
    ensures (a + 1) * b == a * b + b
  {
  }

  /** A guess that fits, and that one more character would make too wide, stays. */
  lemma FirstStays(m: Measure, word: string, width: int, guess: nat)
    requires 1 <= guess <= |word| && (guess == 1 || m(word[..guess]) <= width)
    requires guess < |word| ==> m(word[..guess + 1]) > width
    ensures Halved(m, word, width, guess, HALVINGS) == guess && Grown(m, word, width, guess, GROWTHS) == guess
  {
  }

  method FitLongWord(m: Measure, word: string, width: int) returns (cut: nat)
    requires word != ""
    ensures cut == FitCut(m, word, width)
  {
    var probe := word[..Min(PROBE, |word|)];
    if m(probe) <= 0 {
      return 1;
    }
    cut := FirstGuess(m, word, width);
    ghost var guess := cut;
    var i := 0;
    while i < HALVINGS && cut > 1 && m(word[..cut]) > width
      invariant 0 <= i <= HALVINGS && 1 <= cut <= |word|
      invariant Halved(m, word, width, cut, HALVINGS - i) == Halved(m, word, width, guess, HALVINGS)
      decreases HALVINGS - i
    {
      cut := cut / 2;
      i := i + 1;
    }
    ghost var halved := cut;
    i := 0;
    while i < GROWTHS && cut < |word| && m(word[..cut + 1]) <= width
      invariant 0 <= i <= GROWTHS && 1 <= cut <= |word|
      invariant Grown(m, word, width, cut, GROWTHS - i) == Grown(m, word, width, halved, GROWTHS)
      decreases GROWTHS - i
    {
      cut := cut + 1;
      i := i + 1;
    }
  }

  // ---- what wrapping is ------------------------------------------------------------------

  /** The width of a line with one more word is measured, or summed up from the widths of its parts. */
  datatype Mode = Measured | Summed

  function Split(text: string, c: char): (parts: seq<string>)
    ensures parts != []
  {
    if text == "" then [""]
    else
      var rest := Split(text[1..], c);
      if text[0] == c then [""] + rest else [[text[0]] + rest[0]] + rest[1..]
  }

  function Extended(current: string, word: string): string {
    if current == "" then word else current + " " + word
  }

  function TrialWidth(m: Measure, mode: Mode, current: string, currentW: int, word: string): int {
    if mode.Measured? then m(Extended(current, word))
    else if current == "" then m(word)
    else currentW + m(" ") + m(word)
  }

  /** The pieces cut off a word until the rest fits. */
  function Pieces(m: Measure, word: string, width: int): seq<string>
    decreases |word|
  {
    if word == "" || m(word) <= width then []
    else
      var cut := FitCut(m, word, width);
      [word[..cut]] + Pieces(m, word[cut..], width)
  }

  function Rest(m: Measure, word: string, width: int): string
    decreases |word|
  {
    if word == "" || m(word) <= width then word else Rest(m, word[FitCut(m, word, width)..], width)
  }

  function Flush(current: string): seq<string> {
    if current == "" then [] else [current]
  }

  /** The lines of a paragraph from `words` on, when `current` is on the line. */
  function WrapWords(m: Measure, mode: Mode, words: seq<string>, width: int, current: string,
          currentW: int): (lines: seq<string>)
    ensures lines != []
    decreases |words|
  {
    if words == [] then [current]
    else
      var word := words[0];
      var trialW := TrialWidth(m, mode, current, currentW, word);
      if trialW <= width then WrapWords(m, mode, words[1..], width, Extended(current, word), trialW)
      else
        var rest := Rest(m, word, width);
        Flush(current) + Pieces(m, word, width) + WrapWords(m, mode, words[1..], width, rest, m(rest))
  }

  function WrapParagraph(m: Measure, mode: Mode, paragraph: string, width: int): (lines: seq<string>)
    ensures lines != []
  {
    if paragraph == "" then [""] else WrapWords(m, mode, Split(paragraph, ' '), width, "", 0)
  }

  function WrapAll(m: Measure, mode: Mode, paragraphs: seq<string>, width: int): seq<string> {
    if paragraphs == [] then []
    else
      WrapAll(m, mode, paragraphs[..|paragraphs| - 1], width)
      + WrapParagraph(m, mode, paragraphs[|paragraphs| - 1], width)
  }

  function Wrapped(m: Measure, mode: Mode, text: string, width: int): seq<string> {
    WrapAll(m, mode, Split(text, '\n'), width)
  }

  // ---- no character is lost --------------------------------------------------------------

  function NonSpace(s: string): string {
    if s == "" then "" else (if s[0] == ' ' then "" else [s[0]]) + NonSpace(s[1..])
  }

  function Concat(lines: seq<string>): string {
    if lines == [] then "" else lines[0] + Concat(lines[1..])
  }

  lemma {:induction false} NonSpaceConcat(a: string, b: string)
    ensures NonSpace(a + b) == NonSpace(a) + NonSpace(b)
  {
    if a == "" {
      assert a + b == b;
    } else {
      assert (a + b)[1..] == a[1..] + b;
      NonSpaceConcat(a[1..], b);
    }
  }

  lemma {:induction false} ConcatConcat(a: seq<string>, b: seq<string>)
    ensures Concat(a + b) == Concat(a) + Concat(b)
  {
    if a == [] {
      assert a + b == b;
    } else {
      assert (a + b)[1..] == a[1..] + b;
      ConcatConcat(a[1..], b);
    }
  }

  lemma ConcatFirst(first: string, more: seq<string>)
    ensures Concat([]) == "" && Concat([first] + more) == first + Concat(more)
  {
    assert ([first] + more)[1..] == more;
  }

  lemma {:induction false} PiecesAndRest(m: Measure, word: string, width: int)
    ensures Concat(Pieces(m, word, width)) + Rest(m, word, width) == word
    decreases |word|
  {
    hide FitCut, Concat, Pieces, Rest;
    if word == "" || m(word) <= width {
      ConcatFirst("", []);
      PiecesDone(m, word, width);
    } else {
      PiecesStep(m, word, width);
      var cut := FitCut(m, word, width);
      var first, more, rest := word[..cut], Pieces(m, word[cut..], width), Rest(m, word[cut..], width);
      PiecesAndRest(m, word[cut..], width);
      ConcatFirst(first, more);
      calc {
        Concat([first] + more) + rest;
        first + Concat(more) + rest;
        first + (Concat(more) + rest);
        first + word[cut..];
        word;
      }
    }
  }

  /** The text of the words, one after the other. */
  lemma {:induction false} SplitKeeps(s: string)
    ensures NonSpace(Concat(Split(s, ' '))) == NonSpace(s)
  {
    if s != "" {
      var rest := Split(s[1..], ' ');
      SplitKeeps(s[1..]);
      assert rest == [rest[0]] + rest[1..];
      if s[0] == ' ' {
        var parts := [""] + rest;
        assert parts[1..] == rest;
        assert Concat(parts) == "" + Concat(rest) == Concat(rest);
      } else {
        var parts := [[s[0]] + rest[0]] + rest[1..];
        assert parts[1..] == rest[1..];
        assert Concat(parts) == [s[0]] + Concat(rest);
        assert ([s[0]] + Concat(rest))[1..] == Concat(rest);
      }
    }
  }

  lemma FlushKeeps(current: string)
    ensures Concat(Flush(current)) == current
  {
    assert [current][1..] == [];
  }

  lemma {:induction false} WordsKeep(m: Measure, mode: Mode, words: seq<string>, width: int, current: string,
          currentW: int)
    ensures NonSpace(Concat(WrapWords(m, mode, words, width, current, currentW))) ==
        NonSpace(current) + NonSpace(Concat(words))
    decreases |words|
  {
    hide NonSpace, Pieces, Rest, Flush, TrialWidth;
    if words == [] {
      assert [current][1..] == [];
      NonSpaceConcat(current, "");
      assert current + "" == current;
    } else {
      var word := words[0];
      var trialW := TrialWidth(m, mode, current, currentW, word);
      NonSpaceConcat(word, Concat(words[1..]));
      if trialW <= width {
        WordsKeep(m, mode, words[1..], width, Extended(current, word), trialW);
        ExtendedKeeps(current, word);
      } else {
        var rest := Rest(m, word, width);
        var later := WrapWords(m, mode, words[1..], width, rest, m(rest));
        WordsKeep(m, mode, words[1..], width, rest, m(rest));
        ConcatConcat(Flush(current) + Pieces(m, word, width), later);
        ConcatConcat(Flush(current), Pieces(m, word, width));
        FlushKeeps(current);
        PiecesAndRest(m, word, width);
        var pieces := Concat(Pieces(m, word, width));
        NonSpaceConcat(current + pieces, Concat(later));
        NonSpaceConcat(current, pieces);
        NonSpaceConcat(pieces, rest);
      }
    }
  }

  lemma ExtendedKeeps(current: string, word: string)
    ensures NonSpace(Extended(current, word)) == NonSpace(current) + NonSpace(word)
  {
    assert NonSpace(" ") == "" && NonSpace("") == "";
    if current != "" {
      NonSpaceConcat(current + " ", word);
      NonSpaceConcat(current, " ");
    }
  }

  /** The lines of a paragraph hold its non-space characters, all of them and in order. */
  lemma ParagraphKeepsText(m: Measure, mode: Mode, paragraph: string, width: int)
    ensures NonSpace(Concat(WrapParagraph(m, mode, paragraph, width))) == NonSpace(paragraph)
  {
    if paragraph != "" {
      WordsKeep(m, mode, Split(paragraph, ' '), width, "", 0);
      SplitKeeps(paragraph);
    }
  }

  // ---- every line fits -------------------------------------------------------------------

  predicate Fits(m: Measure, line: string, width: int) {
    |line| <= 1 || m(line) <= width
  }

  lemma {:induction false} PiecesFit(m: Measure, word: string, width: int)
    requires |word| < 8192
    ensures forall p :: p in Pieces(m, word, width) ==> Fits(m, p, width)
    ensures Fits(m, Rest(m, word, width), width)
    decreases |word|
  {
    hide FitCut;
    if word != "" && m(word) > width {
      CutFits(m, word, width);
      PiecesFit(m, word[FitCut(m, word, width)..], width);
    }
  }

  lemma {:induction false} WordsFit(m: Measure, words: seq<string>, width: int, current: string, currentW: int)
    requires Fits(m, current, width) && forall w :: w in words ==> |w| < 8192
    ensures forall line :: line in WrapWords(m, Measured, words, width, current, currentW) ==> Fits(m, line, width)
    decreases |words|
  {
    hide Pieces, Rest, Extended;
    if words != [] {
      var word := words[0];
      var trialW := TrialWidth(m, Measured, current, currentW, word);
      if trialW <= width {
        WordsFit(m, words[1..], width, Extended(current, word), trialW);
      } else {
        PiecesFit(m, word, width);
        WordsFit(m, words[1..], width, Rest(m, word, width), m(Rest(m, word, width)));
      }
    }
  }

  /** Whatever the measure, no line of plain wrapping is too wide, unless it is a single character. */
  lemma ParagraphFits(m: Measure, paragraph: string, width: int)
    requires forall w :: w in Split(paragraph, ' ') ==> |w| < 8192
    ensures forall line :: line in WrapParagraph(m, Measured, paragraph, width) ==> Fits(m, line, width)
  {
    WordsFit(m, Split(paragraph, ' '), width, "", 0);
  }

  // ---- summing instead of measuring ------------------------------------------------------

  predicate IsWord(w: string) {
    ' ' !in w && '\n' !in w
  }

  /** The words that can stand on one line: the first is not empty. */
  predicate IsLine(words: seq<string>) {
    words != [] && words[0] != "" && forall w :: w in words ==> IsWord(w)
  }

  function Joined(words: seq<string>): string {
    if words == [] then ""
    else if |words| == 1 then words[0]
    else Joined(words[..|words| - 1]) + " " + words[|words| - 1]
  }

  /** The width of a line, summed up from its parts. */
  function Sum(m: Measure, words: seq<string>): int {
    if words == [] then 0
    else if |words| == 1 then m(words[0])
    else Sum(m, words[..|words| - 1]) + m(" ") + m(words[|words| - 1])
  }

  /** The greatest width the line has had, measured or summed, since its first word. */
  function Peak(m: Measure, words: seq<string>): (p: int)
    requires words != []
    ensures m(Joined(words)) <= p && Sum(m, words) <= p
  {
    if |words| == 1 then m(words[0])
    else Max(Peak(m, words[..|words| - 1]), Max(m(Joined(words)), Sum(m, words)))
  }

  /** Adding the word, measuring and summing agree about the width, or the line has been at least as wide before. */
  predicate Harmless(m: Measure, words: seq<string>, w: string)
    requires words != []
  {
    var more := words + [w];
    m(Joined(more)) == Sum(m, more) || Max(m(Joined(more)), Sum(m, more)) <= Peak(m, words)
  }

  ghost predicate Steady(m: Measure) {
    forall words, w :: IsLine(words) && IsWord(w) ==> Harmless(m, words, w)
  }

  ghost predicate Agree(m: Measure) {
    forall text, width :: Wrapped(m, Summed, text, width) == Wrapped(m, Measured, text, width)
  }

  lemma JoinedMore(m: Measure, words: seq<string>, w: string)
    requires words != []
    ensures Joined(words + [w]) == Joined(words) + " " + w
    ensures Sum(m, words + [w]) == Sum(m, words) + m(" ") + m(w)
    ensures Peak(m, words + [w]) == Max(Peak(m, words), Max(m(Joined(words + [w])), Sum(m, words + [w])))
  {
    assert (words + [w])[..|words|] == words;
  }

  lemma JoinedOne(m: Measure, w: string)
    ensures Joined([w]) == w && Sum(m, [w]) == m(w) && Peak(m, [w]) == m(w)
  {
  }

  lemma {:induction false} JoinedIsText(words: seq<string>)
    requires IsLine(words)
    ensures Joined(words) != "" && Joined(words)[0] != ' ' && '\n' !in Joined(words)
    ensures Split(Joined(words), ' ') == words
  {
    assert words[0] in words && words[|words| - 1] in words;
    if |words| == 1 {
      NoSeparator(words[0], ' ');
    } else {
      var front, last := words[..|words| - 1], words[|words| - 1];
      assert words == front + [last];
      assert forall w :: w in front ==> w in words;
      JoinedIsText(front);
      SplitLast(Joined(front), ' ', last);
    }
  }

  lemma {:induction false} SplitLast(a: string, c: char, b: string)
    requires c !in b
    ensures Split(a + [c] + b, c) == Split(a, c) + [b]
  {
    var s := a + [c] + b;
    if a == "" {
      assert s[1..] == b;
      NoSeparator(b, c);
    } else {
      assert s[1..] == a[1..] + [c] + b;
      SplitLast(a[1..], c, b);
    }
  }

  lemma {:induction false} SplitParts(s: string, c: char)
    ensures forall p :: p in Split(s, c) ==> c !in p && forall d :: d in p ==> d in s
  {
    if s != "" {
      SplitParts(s[1..], c);
      var rest := Split(s[1..], c);
      assert rest == [rest[0]] + rest[1..];
    }
  }

  lemma {:induction false} RestIsWord(m: Measure, word: string, width: int)
    requires IsWord(word)
    ensures IsWord(Rest(m, word, width)) && (Rest(m, word, width) == "" || m(Rest(m, word, width)) <= width)
    decreases |word|
  {
    hide FitCut;
    if word != "" && m(word) > width {
      RestIsWord(m, word[FitCut(m, word, width)..], width);
    }
  }

  /** What is on the line: nothing, or words that have fitted all along. */
  predicate OnLine(m: Measure, words: seq<string>, width: int, current: string, currentW: int) {
    current == Joined(words)
    && (words != [] ==> IsLine(words) && currentW == Sum(m, words) && Peak(m, words) <= width)
  }

  /** A word alone on a line. */
  function Alone(word: string): seq<string> {
    if word == "" then [] else [word]
  }

  lemma {:induction false} SteadyWords(
      m: Measure, line: seq<string>, words: seq<string>, width: int, current: string, currentW: int, other: int)
    requires Steady(m) && OnLine(m, line, width, current, currentW) && forall w :: w in words ==> IsWord(w)
    ensures WrapWords(m, Summed, words, width, current, currentW) ==
        WrapWords(m, Measured, words, width, current, other)
    decreases |words|
  {
    hide Pieces, Rest, Steady, Flush, Joined, Sum, Peak, Split;
    if words != [] {
      var word := words[0];
      var trialW := TrialWidth(m, Summed, current, currentW, word);
      var rest := Rest(m, word, width);
      RestIsWord(m, word, width);
      assert Joined([]) == "" by { JoinedNone(); }
      JoinedOne(m, word);
      JoinedOne(m, rest);
      if line == [] {
        SteadyWords(m, if trialW <= width then Alone(word) else Alone(rest), words[1..], width,
                    if trialW <= width then word else rest, if trialW <= width then m(word) else m(rest),
                    if trialW <= width then m(word) else m(rest));
      } else {
        JoinedIsText(line);
        JoinedMore(m, line, word);
        assert Harmless(m, line, word) by { SteadyAt(m, line, word); }
        var trialM := TrialWidth(m, Measured, current, other, word);
        assert trialW <= width <==> trialM <= width;
        if trialW <= width {
          SteadyWords(m, line + [word], words[1..], width, Extended(current, word), trialW, trialM);
        } else {
          SteadyWords(m, Alone(rest), words[1..], width, rest, m(rest), m(rest));
        }
      }
    }
  }

  lemma JoinedNone()
    ensures Joined([]) == ""
  {
  }

  lemma SteadyAt(m: Measure, words: seq<string>, w: string)
    requires Steady(m) && IsLine(words) && IsWord(w)
    ensures Harmless(m, words, w)
  {
  }

  lemma {:induction false} SteadyParagraphs(m: Measure, paragraphs: seq<string>, width: int)
    requires Steady(m) && forall p :: p in paragraphs ==> '\n' !in p
    ensures WrapAll(m, Summed, paragraphs, width) == WrapAll(m, Measured, paragraphs, width)
  {
    hide Steady, WrapWords, Split;
    if paragraphs != [] {
      var front, last := paragraphs[..|paragraphs| - 1], paragraphs[|paragraphs| - 1];
      assert paragraphs == front + [last];
      SteadyParagraphs(m, front, width);
      SplitParts(last, ' ');
      JoinedNone();
      SteadyWords(m, [], Split(last, ' '), width, "", 0, 0);
    }
  }

  /** Both ways put words on one line as long as neither width exceeds the limit. */
  lemma {:induction false} LineFits(m: Measure, mode: Mode, line: seq<string>, more: seq<string>, width: int)
    requires IsLine(line) && Peak(m, line) <= width
    ensures WrapWords(m, mode, line + more, width, "", 0) ==
            WrapWords(m, mode, more, width, Joined(line), if mode.Measured? then m(Joined(line)) else Sum(m, line))
    decreases |line|
  {
    hide Pieces, Rest, Flush, Joined, Sum, Peak, Split;
    if |line| == 1 {
      var word := line[0];
      assert line == [word];
      JoinedOne(m, word);
      assert (line + more)[1..] == more;
    } else {
      var front, word := line[..|line| - 1], line[|line| - 1];
      assert line == front + [word];
      assert line + more == front + ([word] + more);
      assert ([word] + more)[1..] == more;
      JoinedMore(m, front, word);
      JoinedIsText(front);
      LineFits(m, mode, front, [word] + more, width);
    }
  }

  /** A word that does harm is broken off at some width by one of the two and not by the other. */
  lemma HarmShows(m: Measure, words: seq<string>, w: string)
    requires IsLine(words) && IsWord(w) && !Harmless(m, words, w)
    ensures var text := Joined(words + [w]); var width := Max(Min(m(text), Sum(m, words + [w])), Peak(m, words));
      Wrapped(m, Summed, text, width) != Wrapped(m, Measured, text, width)
  {
    hide Pieces, Rest, Joined, Sum, Peak, Split, IsLine, WrapWords, Wrapped;
    LineNotEmpty(words);
    var more := words + [w];
    var text := Joined(more);
    var width := Max(Min(m(text), Sum(m, more)), Peak(m, words));
    JoinedMore(m, words, w);
    LineWithMore(words, w);
    JoinedIsText(words);
    LineFits(m, Summed, words, [w], width);
    LineFits(m, Measured, words, [w], width);
    OneMoreWord(m, Summed, Joined(words), Sum(m, words), w, width);
    OneMoreWord(m, Measured, Joined(words), m(Joined(words)), w, width);
    WrappedLine(m, Summed, more, width);
    WrappedLine(m, Measured, more, width);
  }

  lemma WrappedLine(m: Measure, mode: Mode, words: seq<string>, width: int)
    requires IsLine(words)
    ensures Wrapped(m, mode, Joined(words), width) == WrapWords(m, mode, words, width, "", 0)
  {
    hide WrapWords, Split, Joined, IsLine;
    var text := Joined(words);
    JoinedIsText(words);
    NoSeparator(text, '\n');
    assert [text][..0] == [] && WrapAll(m, mode, [], width) == [];
    assert [] + WrapParagraph(m, mode, text, width) == WrapParagraph(m, mode, text, width);
  }

  lemma LineWithMore(words: seq<string>, w: string)
    requires IsLine(words) && IsWord(w)
    ensures IsLine(words + [w])
  {
  }

  /** A last word fits on the line, or else there is more than one line. */
  lemma OneMoreWord(m: Measure, mode: Mode, current: string, currentW: int, w: string, width: int)
    requires current != ""
    ensures |WrapWords(m, mode, [w], width, current, currentW)| == 1 <==>
        TrialWidth(m, mode, current, currentW, w) <= width
  {
    hide Pieces, Rest;
    assert [w][1..] == [];
  }

  /** The cached wrapper and the plain one agree on every text at every width exactly for steady measures. */
  lemma AgreeIffSteady(m: Measure)
    ensures Agree(m) <==> Steady(m)
  {
    hide Wrapped, Harmless, Joined, IsLine, IsWord;
    if Steady(m) {
      forall text, width
        ensures Wrapped(m, Summed, text, width) == Wrapped(m, Measured, text, width)
      {
        SummedIsMeasured(m, text, width);
      }
    }
    if Agree(m) {
      forall words, w | IsLine(words) && IsWord(w)
        ensures words != [] && Harmless(m, words, w)
      {
        LineNotEmpty(words);
        if !Harmless(m, words, w) {
          HarmShows(m, words, w);
        }
      }
    }
  }

  lemma LineNotEmpty(words: seq<string>)
    requires IsLine(words)
    ensures words != []
  {
  }

  /** For a steady measure, summing widths wraps every text at every width as measuring does. */
  lemma SummedIsMeasured(m: Measure, text: string, width: int)
    requires Steady(m)
    ensures Wrapped(m, Summed, text, width) == Wrapped(m, Measured, text, width)
  {
    hide Steady, WrapAll;
    SplitParts(text, '\n');
    SteadyParagraphs(m, Split(text, '\n'), width);
  }

  // ---- which measures are steady ---------------------------------------------------------

  predicate AddsAt(m: Measure, words: seq<string>, w: string) {
    m(Joined(words + [w])) == m(Joined(words)) + m(" ") + m(w)
  }

  /** Widths add up where words are joined. */
  ghost predicate JoinAdditive(m: Measure) {
    forall words, w :: IsLine(words) && IsWord(w) ==> AddsAt(m, words, w)
  }

  predicate WidensAt(m: Measure, words: seq<string>, w: string) {
    m(Joined(words)) <= m(Joined(words + [w]))
  }

  /** No width is negative, and a line does not become narrower when a word is added. */
  ghost predicate Widens(m: Measure) {
    (forall s :: m(s) >= 0) && forall words, w :: IsLine(words) && IsWord(w) ==> WidensAt(m, words, w)
  }

  lemma {:induction false} SumOfAdditive(m: Measure, words: seq<string>)
    requires JoinAdditive(m) && IsLine(words)
    ensures m(Joined(words)) == Sum(m, words)
  {
    hide IsWord;
    if |words| > 1 {
      var front, last := words[..|words| - 1], words[|words| - 1];
      assert words == front + [last];
      SumOfAdditive(m, front);
      assert AddsAt(m, front, last);
    }
  }

  lemma {:induction false} SumOfSteady(m: Measure, words: seq<string>)
    requires Steady(m) && Widens(m) && IsLine(words)
    ensures m(Joined(words)) == Sum(m, words) == Peak(m, words)
  {
    hide IsWord;
    if |words| > 1 {
      var front, last := words[..|words| - 1], words[|words| - 1];
      assert words == front + [last];
      SumOfSteady(m, front);
      assert Harmless(m, front, last) && WidensAt(m, front, last);
      assert m(" ") >= 0 && m(last) >= 0;
    }
  }

  /** Additivity where words are joined is always enough, and for measures that widen it is what it takes. */
  lemma SteadyIffJoinAdditive(m: Measure)
    ensures JoinAdditive(m) ==> Steady(m)
    ensures Widens(m) ==> (Steady(m) <==> JoinAdditive(m))
  {
    hide IsWord, IsLine, Joined, Sum, Peak;
    if JoinAdditive(m) {
      forall words, w | IsLine(words) && IsWord(w)
        ensures words != [] && Harmless(m, words, w)
      {
        LineNotEmpty(words);
        LineWithMore(words, w);
        SumOfAdditive(m, words + [w]);
      }
    }
    if Widens(m) && Steady(m) {
      forall words, w | IsLine(words) && IsWord(w)
        ensures AddsAt(m, words, w)
      {
        LineNotEmpty(words);
        LineWithMore(words, w);
        SumOfSteady(m, words);
        SumOfSteady(m, words + [w]);
        JoinedMore(m, words, w);
      }
    }
  }

  /** "fi" set as one letter. */
  function Ligated(s: string): int {
    if s == "" then 0
    else if |s| >= 2 && s[0] == 'f' && s[1] == 'i' then 1 + Ligated(s[2..])
    else 1 + Ligated(s[1..])
  }

  lemma {:induction false} LigatedJoin(a: string, b: string)
    ensures Ligated(a + " " + b) == Ligated(a) + 1 + Ligated(b)
    decreases |a|
  {
    var s := a + " " + b;
    if a == "" {
      assert s[1..] == b;
    } else if |a| >= 2 && a[0] == 'f' && a[1] == 'i' {
      assert s[2..] == a[2..] + " " + b;
      LigatedJoin(a[2..], b);
    } else {
      assert s[1..] == a[1..] + " " + b;
      assert s[1] == if |a| == 1 then ' ' else a[1];
      LigatedJoin(a[1..], b);
    }
  }

  /** A ligature inside words does no harm although widths do not add up. */
  lemma LigaturesAgree()
    ensures Agree(Ligated) && Ligated("f" + "i") != Ligated("f") + Ligated("i")
  {
    hide Agree, Steady, Wrapped;
    forall words, w | IsLine(words) && IsWord(w)
      ensures AddsAt(Ligated, words, w)
    {
      JoinedMore(Ligated, words, w);
      LigatedJoin(Joined(words), w);
      LigatedJoin("", "");
      assert Ligated("") == 0 && "" + " " + "" == " ";
    }
    SteadyIffJoinAdditive(Ligated);
    AgreeIffSteady(Ligated);
    assert "f" + "i" == "fi" && "fi"[2..] == "" && "f"[1..] == "" && "i"[1..] == "";
  }

  /** Two letters set closer together around a space. */
  function Kerned(s: string): int {
    if s == "a b" then 2 else |s|
  }

  /** Kerning across a space is not steady, and the two wrap differently. */
  lemma KerningDiffers()
    ensures Wrapped(Kerned, Measured, "a b", 2) == ["a b"]
    ensures Wrapped(Kerned, Summed, "a b", 2) == ["a", "b"]
  {
    SplitAt("a", ' ', "b");
    NoSeparator("a b", '\n');
    NoSeparator("b", ' ');
    assert "a" + [' '] + "b" == "a b";
    assert ["a", "b"][1..] == ["b"] && ["b"][1..] == [];
    assert ["a b"][..0] == [];
    assert Extended("", "a") == "a" && Extended("a", "b") == "a b";
    assert WrapWords(Kerned, Measured, [], 2, "a b", 2) == ["a b"];
    assert WrapWords(Kerned, Measured, ["b"], 2, "a", 1) == ["a b"];
    assert WrapWords(Kerned, Summed, [], 2, "b", 1) == ["b"];
    assert Pieces(Kerned, "b", 2) == [] && Rest(Kerned, "b", 2) == "b";
    assert WrapWords(Kerned, Summed, ["b"], 2, "a", 1) == ["a"] + [] + ["b"];
  }

  lemma {:induction false} NoSeparator(s: string, c: char)
    requires c !in s
    ensures Split(s, c) == [s]
  {
    if s != "" {
      NoSeparator(s[1..], c);
      assert [s[0]] + s[1..] == s;
    }
  }

  lemma {:induction false} SplitAt(a: string, c: char, b: string)
    requires c !in a
    ensures Split(a + [c] + b, c) == [a] + Split(b, c)
  {
    var s := a + [c] + b;
    if a == "" {
      assert s[1..] == b;
    } else {
      assert s[1..] == a[1..] + [c] + b;
      SplitAt(a[1..], c, b);
      assert [s[0]] + a[1..] == a;
    }
  }

  // ---- the plain wrapper -----------------------------------------------------------------

  method WrapLines(m: Measure, text: string, width: int) returns (lines: seq<string>)
    ensures lines == Wrapped(m, Measured, text, width)
  {
    hide WrapParagraph;
    lines := [];
    var paragraphs := Split(text, '\n');
    for i := 0 to |paragraphs|
      invariant lines == WrapAll(m, Measured, paragraphs[..i], width)
    {
      assert paragraphs[..i + 1][..i] == paragraphs[..i];
      var more := WrapOne(m, paragraphs[i], width);
      lines := lines + more;
    }
    assert paragraphs[..|paragraphs|] == paragraphs;
  }

  method WrapOne(m: Measure, paragraph: string, width: int) returns (lines: seq<string>)
    ensures lines == WrapParagraph(m, Measured, paragraph, width)
  {
    hide Split, Pieces, Rest, WrapWords, Extended;
    if paragraph == "" {
      return [""];
    }
    lines := [];
    var words := Split(paragraph, ' ');
    var current := "";
    ghost var currentW := 0;
    ghost var all := WrapWords(m, Measured, words, width, "", 0);
    assert words[0..] == words;
    for i := 0 to |words|
      invariant all == lines + WrapWords(m, Measured, words[i..], width, current, currentW)
    {
      WordStep(m, Measured, words, i, width, current, currentW);
      var trial := Extended(current, words[i]);
      if m(trial) <= width {
        current, currentW := trial, m(trial);
      } else {
        ghost var done := lines;
        if current != "" {
          lines := lines + [current];
        }
        ghost var flushed := Flush(current);
        var pieces, rest := CutUp(m, words[i], width);
        lines := lines + pieces;
        current, currentW := rest, m(rest);
        Regroup(done, flushed, pieces, WrapWords(m, Measured, words[i + 1..], width, current, currentW));
      }
    }
    NoWords(m, Measured, words, width, current, currentW);
    lines := lines + [current];
  }

  method CutUp(m: Measure, word: string, width: int) returns (pieces: seq<string>, rest: string)
    ensures pieces == Pieces(m, word, width) && rest == Rest(m, word, width)
  {
    hide Pieces, Rest;
    pieces, rest := [], word;
    while rest != "" && m(rest) > width
      invariant pieces + Pieces(m, rest, width) == Pieces(m, word, width)
      invariant Rest(m, rest, width) == Rest(m, word, width)
      decreases |rest|
    {
      PiecesStep(m, rest, width);
      var cut := FitLongWord(m, rest, width);
      pieces := pieces + [rest[..cut]];
      rest := rest[cut..];
    }
    PiecesDone(m, rest, width);
  }

  /** Placing one more word. */
  lemma WordStep(m: Measure, mode: Mode, words: seq<string>, i: nat, width: int, current: string, currentW: int)
    requires i < |words|
    ensures var word, later := words[i], words[i + 1..]; var trialW := TrialWidth(m, mode, current, currentW, word);
      var rest := Rest(m, word, width);
      WrapWords(m, mode, words[i..], width, current, currentW) ==
      if trialW <= width then WrapWords(m, mode, later, width, Extended(current, word), trialW)
      else Flush(current) + Pieces(m, word, width) + WrapWords(m, mode, later, width, rest, m(rest))
  {
    hide Pieces, Rest, Extended, Flush, TrialWidth;
    assert words[i..][1..] == words[i + 1..];
  }

  /** A line takes all the words that fit: the first `k` of the words at hand, if they fit one by one and one more
      does not. */
  lemma {:induction false} LineIsFull(m: Measure, done: seq<string>, words: seq<string>, width: int, w: int, k: nat)
    requires done != [] || words != []
    requires (if done != [] then done[0] else words[0]) != ""
    requires k <= |words| && (done == [] ==> k > 0)
    requires forall j :: 0 < j <= k ==> m(Joined(done + words[..j])) <= width
    requires k < |words| ==> m(Joined(done + words[..k + 1])) > width
    ensures WrapWords(m, Measured, words, width, Joined(done), w)[0] == Joined(done + words[..k])
    decreases k
  {
    hide Joined, Pieces, Rest;
    if k == 0 {
      assert done + words[..0] == done;
      LineStarts(done);
      if words != [] {
        LineExtends(done, words[0]);
        assert words[..1] == [words[0]];
      }
    } else {
      var more := done + [words[0]];
      LineExtends(done, words[0]);
      assert done + words[..1] == more;
      forall j | 0 <= j <= |words| - 1
        ensures more + words[1..][..j] == done + words[..j + 1]
      {
      }
      LineIsFull(m, more, words[1..], width, m(Joined(more)), k - 1);
    }
  }

  lemma {:induction false} LineStarts(words: seq<string>)
    requires words != [] && words[0] != ""
    ensures Joined(words) != ""
  {
    if |words| > 1 {
      LineStarts(words[..|words| - 1]);
    }
  }

  lemma LineExtends(done: seq<string>, word: string)
    requires done == [] || done[0] != ""
    ensures Extended(Joined(done), word) == Joined(done + [word])
  {
    var more := done + [word];
    if done != [] {
      LineStarts(done);
      assert more[..|more| - 1] == done;
    }
  }

  lemma NoWords(m: Measure, mode: Mode, words: seq<string>, width: int, current: string, currentW: int)
    ensures WrapWords(m, mode, words[|words|..], width, current, currentW) == [current]
  {
  }

  lemma Regroup(a: seq<string>, b: seq<string>, c: seq<string>, d: seq<string>)
    ensures a + (b + c + d) == a + b + c + d
    ensures a + [] == a
  {
  }

  lemma PiecesStep(m: Measure, word: string, width: int)
    requires word != "" && m(word) > width
    ensures var cut := FitCut(m, word, width);
      && Pieces(m, word, width) == [word[..cut]] + Pieces(m, word[cut..], width)
      && Rest(m, word, width) == Rest(m, word[cut..], width)
  {
  }

  lemma PiecesDone(m: Measure, word: string, width: int)
    requires word == "" || m(word) <= width
    ensures Pieces(m, word, width) == [] && Rest(m, word, width) == word
  {
  }

  // ---- the cached wrapper ----------------------------------------------------------------

  type CacheKey = (Font, string)

  /** Word widths by font and word, with the keys in the order of insertion. */
  class WidthCache {
    var order: seq<CacheKey>
    var widths: map<CacheKey, int>

    constructor ()
      ensures Valid() && widths == map[]
    {
      order, widths := [], map[];
    }

    ghost predicate Valid()
      reads this
    {
      Lists(order, widths.Keys)
    }

    /** Every width held is what its font measures. */
    ghost predicate Sound(fonts: Font -> Measure)
      reads this
    {
      forall k :: k in widths ==> widths[k] == fonts(k.0)(k.1)
    }

    method Insert(fonts: Font -> Measure, key: CacheKey) returns (w: int)
      requires Valid() && Sound(fonts) && key !in widths
      modifies this
      ensures Valid() && Sound(fonts) && w == fonts(key.0)(key.1)
      ensures widths == old(widths)[key := w] && |widths| == old(|widths|) + 1
    {
      hide Lists;
      ListsAppend(order, widths.Keys, key);
      w := fonts(key.0)(key.1);
      ghost var before := widths;
      order := order + [key];
      widths := widths[key := w];
      assert widths.Keys == before.Keys + {key};
      assert |widths| == |widths.Keys| && |before| == |before.Keys|;
    }

    /** Drops the entries inserted first. */
    method Evict(fonts: Font -> Measure, n: nat)
      requires Valid() && Sound(fonts) && n <= |widths|
      modifies this
      ensures Valid() && Sound(fonts) && |widths| == old(|widths|) - n
    {
      hide Lists;
      var i := 0;
      while i < n
        invariant i <= n && Valid() && Sound(fonts) && |widths| == old(|widths|) - i
        decreases n - i
      {
        ListsSize(order, widths.Keys);
        assert |widths| == |widths.Keys|;
        ListsDropFirst(order, widths.Keys);
        ghost var before := widths;
        widths := widths - {order[0]};
        assert widths.Keys == before.Keys - {order[0]} && |widths| == |widths.Keys|;
        order := order[1..];
        i := i + 1;
      }
    }

    method CachedMeasure(fonts: Font -> Measure, fid: Font, word: string) returns (w: int)
      requires Valid() && Sound(fonts)
      modifies this
      ensures Valid() && Sound(fonts) && w == fonts(fid)(word)
      ensures Room(old(widths), widths)
    {
      hide Lists;
      if (fid, word) in widths {
        return widths[(fid, word)];
      }
      w := Insert(fonts, (fid, word));
      if |widths| > CACHE_MAX {
        Evict(fonts, CACHE_DROP);
      }
    }

    method ChopLongWord(fonts: Font -> Measure, fid: Font, lines: seq<string>, word: string, wordW: int, width: int)
      returns (longer: seq<string>, rest: string, restW: int)
      requires Valid() && Sound(fonts) && wordW == fonts(fid)(word)
      modifies this
      ensures Valid() && Sound(fonts)
      ensures longer == lines + Pieces(fonts(fid), word, width)
      ensures rest == Rest(fonts(fid), word, width) && restW == fonts(fid)(rest)
      ensures Room(old(widths), widths)
    {
      hide Lists, Pieces, Rest;
      ghost var m := fonts(fid);
      longer, rest, restW := lines, word, wordW;
      while rest != "" && restW > width
        invariant Valid() && Sound(fonts) && restW == m(rest)
        invariant longer + Pieces(m, rest, width) == lines + Pieces(m, word, width)
        invariant Rest(m, rest, width) == Rest(m, word, width)
        invariant Room(old(widths), widths)
        decreases |rest|
      {
        PiecesStep(m, rest, width);
        var cut := FitLongWord(fonts(fid), rest, width);
        longer := longer + [rest[..cut]];
        rest := rest[cut..];
        restW := CachedMeasure(fonts, fid, rest);
      }
      PiecesDone(m, rest, width);
    }

    method WrapLinesCached(fonts: Font -> Measure, fid: Font, text: string, width: int) returns (lines: seq<string>)
      requires Valid() && Sound(fonts)
      modifies this
      ensures Valid() && Sound(fonts)
      ensures lines == Wrapped(fonts(fid), Summed, text, width)
      ensures Steady(fonts(fid)) ==> lines == Wrapped(fonts(fid), Measured, text, width)
      ensures |widths| <= Max(5000, old(|widths|)) + 1
    {
      hide WrapParagraph, Lists, Steady;
      lines := [];
      var paragraphs := Split(text, '\n');
      ghost var m := fonts(fid);
      for i := 0 to |paragraphs|
        invariant Valid() && Sound(fonts) && Tidy(widths, fid, Max(CACHE_MAX, old(|widths|)))
        invariant lines == WrapAll(m, Summed, paragraphs[..i], width)
      {
        assert paragraphs[..i + 1][..i] == paragraphs[..i];
        var more := WrapOneCached(fonts, fid, paragraphs[i], width, Max(CACHE_MAX, old(|widths|)));
        lines := lines + more;
      }
      assert paragraphs[..|paragraphs|] == paragraphs;
      if Steady(m) {
        SummedIsMeasured(m, text, width);
      }
    }

    /** The width of a space, which is cached without evicting anything. */
    method SpaceWidth(fonts: Font -> Measure, fid: Font, ghost limit: int) returns (w: int)
      requires Valid() && Sound(fonts) && Tidy(widths, fid, limit)
      modifies this
      ensures Valid() && Sound(fonts) && Tidy(widths, fid, limit) && w == fonts(fid)(" ")
    {
      hide Lists;
      if (fid, " ") in widths {
        w := widths[(fid, " ")];
      } else {
        w := Insert(fonts, (fid, " "));
      }
    }

    /** Places one word: on the line, or after flushing the line and cutting the word up. */
    method PlaceWord(fonts: Font -> Measure, fid: Font, lines: seq<string>, current: string, currentW: int, spaceW: int,
                     word: string, width: int, ghost limit: int)
      returns (longer: seq<string>, line: string, lineW: int)
      requires Valid() && Sound(fonts) && limit >= CACHE_MAX && Tidy(widths, fid, limit) && spaceW == fonts(fid)(" ")
      modifies this
      ensures Valid() && Sound(fonts) && Tidy(widths, fid, limit)
      ensures var m := fonts(fid); var trialW := TrialWidth(m, Summed, current, currentW, word);
        var rest := Rest(m, word, width);
        if trialW <= width then longer == lines && line == Extended(current, word) && lineW == trialW
        else longer == lines + Flush(current) + Pieces(m, word, width) && line == rest && lineW == m(rest)
    {
      hide Pieces, Rest, Extended, Valid, Sound, Room, Tidy;
      longer := lines;
      ghost var w0 := widths;
      var wordW := CachedMeasure(fonts, fid, word);
      TidyAfter(w0, widths, fid, limit);
      ghost var w1 := widths;
      var trialW := if current == "" then wordW else currentW + spaceW + wordW;
      if trialW <= width {
        line, lineW := Extended(current, word), trialW;
      } else {
        if current != "" {
          longer := longer + [current];
        }
        longer, line, lineW := ChopLongWord(fonts, fid, longer, word, wordW, width);
        TidyAfter(w1, widths, fid, limit);
      }
    }

    method WrapOneCached(fonts: Font -> Measure, fid: Font, paragraph: string, width: int, ghost limit: int)
      returns (lines: seq<string>)
      requires Valid() && Sound(fonts) && limit >= CACHE_MAX && Tidy(widths, fid, limit)
      modifies this
      ensures Valid() && Sound(fonts) && Tidy(widths, fid, limit)
      ensures lines == WrapParagraph(fonts(fid), Summed, paragraph, width)
    {
      hide Split, Pieces, Rest, WrapWords, Extended, Flush, TrialWidth, Lists, Tidy;
      if paragraph == "" {
        return [""];
      }
      lines := [];
      ghost var m := fonts(fid);
      var words := Split(paragraph, ' ');
      var current, currentW := "", 0;
      var spaceW := SpaceWidth(fonts, fid, limit);
      ghost var all := WrapWords(m, Summed, words, width, "", 0);
      assert words[0..] == words;
      for i := 0 to |words|
        invariant Valid() && Sound(fonts) && Tidy(widths, fid, limit)
        invariant all == lines + WrapWords(m, Summed, words[i..], width, current, currentW)
      {
        WordStep(m, Summed, words, i, width, current, currentW);
        Regroup(lines, Flush(current), Pieces(m, words[i], width),
                WrapWords(m, Summed, words[i + 1..], width, Rest(m, words[i], width), m(Rest(m, words[i], width))));
        lines, current, currentW := PlaceWord(fonts, fid, lines, current, currentW, spaceW, words[i], width, limit);
      }
      NoWords(m, Summed, words, width, current, currentW);
      lines := lines + [current];
    }
  }

  /** An update of the cache that took no room beyond what evictions leave. */
  predicate Room(before: map<CacheKey, int>, after: map<CacheKey, int>) {
    after == before || |after| <= CACHE_MAX || |after| < |before|
  }

  /** Only the width of a space may be one too many. */
  predicate Tidy(widths: map<CacheKey, int>, fid: Font, limit: int) {
    |widths| <= limit || (|widths| <= limit + 1 && (fid, " ") in widths)
  }

  lemma TidyAfter(before: map<CacheKey, int>, after: map<CacheKey, int>, fid: Font, limit: int)
    requires Room(before, after) && Tidy(before, fid, limit) && limit >= CACHE_MAX
    ensures Tidy(after, fid, limit)
  {
  }
}
