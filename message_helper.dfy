/**
 * Splitting a long reply into parts that fit a message, and truncating a
 * message with an ellipsis.
 *
 * Text here is a JavaScript string: a sequence of UTF-16 code units, which
 * is what `length`, `lastIndexOf` and `substring` count. A character outside
 * the Basic Multilingual Plane (most emoji) is two units.
 *
 * The splitter repeatedly cuts the remaining text, preferring in turn a
 * paragraph break, a sentence end, a space and finally a hard cut. `Pieces`
 * describes the parts it produces together with the break that ended each
 * one, which is what the round trip needs: the text is the parts joined by
 * the units each break consumed.
 */
module MessageHelper {
  import opened Text

  /** Default part length of the splitter, leaving room for the part labels. */
  const DefaultSplitLength: nat := 1950

  /** Default length of the truncator: the chat service's message limit. */
  const DefaultTruncateLength: int := 2000

  const LineFeed: CodeUnit := 0x0A
  const Space: CodeUnit := 0x20
  const FullStop: CodeUnit := 0x2E

  /** "\n\n", ". ", " " and "..." as code units. */
  const ParagraphMark: Utf16 := [LineFeed, LineFeed]
  const SentenceMark: Utf16 := [FullStop, Space]
  const WordMark: Utf16 := [Space]
  const Ellipsis: Utf16 := [FullStop, FullStop, FullStop]

  /** The marks are the encodings of the literals the code searches for and appends. */
  lemma MarksEncode()
    ensures Utf16Of("\n\n") == ParagraphMark && Utf16Of(". ") == SentenceMark
    ensures Utf16Of(" ") == WordMark && Utf16Of("...") == Ellipsis
  {
    BmpUnits("\n\n");
    BmpUnits(". ");
    BmpUnits(" ");
    BmpUnits("...");
  }

  /** How a part ended. `Final` is the last part, which ends the text. */
  datatype BreakKind = Paragraph | Sentence | Word | Hard | Final

  /** A part and the kind of break that ended it. */
  datatype Piece = Piece(text: Utf16, kind: BreakKind)

  /** One cut of the remaining text: the part, the break used, and what remains. */
  datatype Cut = Cut(part: Utf16, kind: BreakKind, rest: Utf16)

  /** The units a break consumes: they belong to neither neighbouring part. */
  function Separator(kind: BreakKind): Utf16 {
    match kind
    case Paragraph => ParagraphMark
    case Sentence => WordMark
    case Word => WordMark
    case Hard => []
    case Final => []
  }

  predicate OccursAt(s: Utf16, pat: Utf16, k: int) {
    0 <= k && k + |pat| <= |s| && s[k..k + |pat|] == pat
  }

  /** The greatest k in [0, from] at which pat occurs in s, or -1. */
  function LastIndexFrom(s: Utf16, pat: Utf16, from: int): (r: int)
    ensures -1 <= r && (from >= 0 ==> r <= from) && (from < 0 ==> r == -1)
    ensures r >= 0 ==> OccursAt(s, pat, r)
    ensures forall k :: r < k <= from ==> !OccursAt(s, pat, k)
    decreases from + 1
  {
    if from < 0 then -1
    else if OccursAt(s, pat, from) then from
    else LastIndexFrom(s, pat, from - 1)
  }

  /**
   * String#lastIndexOf(pat, position): the last occurrence of pat starting at
   * or before position (clamped to the Utf16), or -1.
   */
  function LastIndexOf(s: Utf16, pat: Utf16, position: int): (r: int)
    ensures -1 <= r && (position >= 0 ==> r <= position) && (position < 0 ==> r <= 0)
    ensures r >= 0 ==> OccursAt(s, pat, r)
  {
    var start := if position < 0 then 0 else if position > |s| then |s| else position;
    LastIndexFrom(s, pat, start)
  }

  /** No occurrence of pat starts after the one lastIndexOf reports, up to position. */
  lemma LastIndexOfIsLast(s: Utf16, pat: Utf16, position: int)
    ensures forall k :: LastIndexOf(s, pat, position) < k <= position ==> !OccursAt(s, pat, k)
  {
  }

  /** The cut that ends the part at `end` and consumes the separator of `kind` that follows it. */
  function CutAt(rem: Utf16, end: nat, kind: BreakKind): (c: Cut)
    requires end + |Separator(kind)| <= |rem| && rem[end..end + |Separator(kind)|] == Separator(kind)
    ensures c.part + Separator(kind) + c.rest == rem
    ensures c.kind == kind && |c.part| == end && |c.rest| == |rem| - end - |Separator(kind)|
  {
    var n := |Separator(kind)|;
    assert rem == rem[..end] + rem[end..end + n] + rem[end + n..];
    Cut(rem[..end], kind, rem[end + n..])
  }

  /**
   * One step of the splitter on a text longer than m: a paragraph break
   * above 75% of m, else a sentence end above 75% of m (the period stays in
   * the part), else a space above 50% of m, else a hard cut at m.
   */
  function BreakAt(rem: Utf16, m: nat): (c: Cut)
    requires |rem| > m
    ensures c.part + Separator(c.kind) + c.rest == rem
    ensures c.kind != Final
    ensures |c.part| <= m || (c.kind == Sentence && |c.part| == m + 1)
    ensures m >= 1 ==> c.part != [] && |c.rest| < |rem|
  {
    var paragraph := LastIndexOf(rem, ParagraphMark, m);
    if 4 * paragraph > 3 * m then
      CutAt(rem, paragraph, Paragraph)
    else
      var sentence := LastIndexOf(rem, SentenceMark, m);
      if 4 * sentence > 3 * m then
        assert rem[sentence + 1..sentence + 2] == rem[sentence..sentence + 2][1..];
        CutAt(rem, sentence + 1, Sentence)
      else
        var word := LastIndexOf(rem, WordMark, m);
        if 2 * word > m then CutAt(rem, word, Word) else CutAt(rem, m, Hard)
  }

  /** The paragraph branch cuts off the text before "\n\n" and drops the two newlines. */
  lemma ParagraphSlices(rem: Utf16, m: nat)
    requires |rem| > m && 4 * LastIndexOf(rem, ParagraphMark, m) > 3 * m
    ensures var p := LastIndexOf(rem, ParagraphMark, m);
            p + 2 <= |rem| && BreakAt(rem, m) == Cut(rem[..p], Paragraph, rem[p + 2..])
  {
  }

  /** The sentence branch keeps the period in the part and drops the space after it. */
  lemma SentenceSlices(rem: Utf16, m: nat)
    requires |rem| > m && 4 * LastIndexOf(rem, ParagraphMark, m) <= 3 * m && 4 * LastIndexOf(rem, SentenceMark, m) > 3 * m
    ensures var q := LastIndexOf(rem, SentenceMark, m);
            q + 2 <= |rem| && BreakAt(rem, m) == Cut(rem[..q + 1], Sentence, rem[q + 2..])
  {
  }

  /** The word branch cuts off the text before the space and drops the space. */
  lemma WordSlices(rem: Utf16, m: nat)
    requires |rem| > m && 4 * LastIndexOf(rem, ParagraphMark, m) <= 3 * m && 4 * LastIndexOf(rem, SentenceMark, m) <= 3 * m
    requires 2 * LastIndexOf(rem, WordMark, m) > m
    ensures var w := LastIndexOf(rem, WordMark, m);
            w + 1 <= |rem| && BreakAt(rem, m) == Cut(rem[..w], Word, rem[w + 1..])
  {
  }

  /** The hard cut splits at m and drops nothing. */
  lemma HardSlices(rem: Utf16, m: nat)
    requires |rem| > m && 4 * LastIndexOf(rem, ParagraphMark, m) <= 3 * m && 4 * LastIndexOf(rem, SentenceMark, m) <= 3 * m
    requires 2 * LastIndexOf(rem, WordMark, m) <= m
    ensures BreakAt(rem, m) == Cut(rem[..m], Hard, rem[m..])
  {
  }

  /** A paragraph break that the splitter would accept: at k with 0.75·m < k <= m. */
  ghost predicate ParagraphBreakIn(rem: Utf16, m: nat) {
    exists k :: 3 * m < 4 * k <= 4 * m && OccursAt(rem, ParagraphMark, k)
  }

  /** A sentence end ". " that the splitter would accept: at k with 0.75·m < k <= m. */
  ghost predicate SentenceBreakIn(rem: Utf16, m: nat) {
    exists k :: 3 * m < 4 * k <= 4 * m && OccursAt(rem, SentenceMark, k)
  }

  /** A space that the splitter would accept: at k with 0.5·m < k <= m. */
  ghost predicate WordBreakIn(rem: Utf16, m: nat) {
    exists k :: m < 2 * k <= 2 * m && OccursAt(rem, WordMark, k)
  }

  lemma ParagraphAccepted(rem: Utf16, m: nat)
    ensures 4 * LastIndexOf(rem, ParagraphMark, m) > 3 * m <==> ParagraphBreakIn(rem, m)
  {
    var p := LastIndexOf(rem, ParagraphMark, m);
    LastIndexOfIsLast(rem, ParagraphMark, m);
    if 4 * p > 3 * m {
      assert OccursAt(rem, ParagraphMark, p);
    }
  }

  lemma SentenceAccepted(rem: Utf16, m: nat)
    ensures 4 * LastIndexOf(rem, SentenceMark, m) > 3 * m <==> SentenceBreakIn(rem, m)
  {
    var p := LastIndexOf(rem, SentenceMark, m);
    LastIndexOfIsLast(rem, SentenceMark, m);
    if 4 * p > 3 * m {
      assert OccursAt(rem, SentenceMark, p);
    }
  }

  lemma WordAccepted(rem: Utf16, m: nat)
    ensures 2 * LastIndexOf(rem, WordMark, m) > m <==> WordBreakIn(rem, m)
  {
    var p := LastIndexOf(rem, WordMark, m);
    LastIndexOfIsLast(rem, WordMark, m);
    if 2 * p > m {
      assert OccursAt(rem, WordMark, p);
    }
  }

  /**
   * The break precedence: a step uses a paragraph break whenever an
   * acceptable one exists, else a sentence end, else a space, else a hard
   * cut.
   */
  lemma BreakPrecedence(rem: Utf16, m: nat)
    requires |rem| > m
    ensures var c := BreakAt(rem, m);
            && (c.kind == Paragraph <==> ParagraphBreakIn(rem, m))
            && (c.kind == Sentence <==> !ParagraphBreakIn(rem, m) && SentenceBreakIn(rem, m))
            && (c.kind == Word <==> !ParagraphBreakIn(rem, m) && !SentenceBreakIn(rem, m) && WordBreakIn(rem, m))
            && (c.kind == Hard <==> !ParagraphBreakIn(rem, m) && !SentenceBreakIn(rem, m) && !WordBreakIn(rem, m))
  {
    ParagraphAccepted(rem, m);
    SentenceAccepted(rem, m);
    WordAccepted(rem, m);
  }

  /** Of the acceptable breaks of its kind a step takes the last one in the window. */
  lemma BreakIsLast(rem: Utf16, m: nat)
    requires |rem| > m
    ensures var c := BreakAt(rem, m);
            && (c.kind == Paragraph ==> OccursAt(rem, ParagraphMark, |c.part|) && forall k :: |c.part| < k <= m ==> !OccursAt(rem, ParagraphMark, k))
            && (c.kind == Sentence ==> OccursAt(rem, SentenceMark, |c.part| - 1) && forall k :: |c.part| - 1 < k <= m ==> !OccursAt(rem, SentenceMark, k))
            && (c.kind == Word ==> OccursAt(rem, WordMark, |c.part|) && forall k :: |c.part| < k <= m ==> !OccursAt(rem, WordMark, k))
  {
    LastIndexOfIsLast(rem, ParagraphMark, m);
    LastIndexOfIsLast(rem, SentenceMark, m);
    LastIndexOfIsLast(rem, WordMark, m);
  }

  /** With a limit of 0 a step cuts nothing off a non-empty text: the bot's loop would never end. */
  lemma StallsAtZero(rem: Utf16)
    requires |rem| > 0
    ensures BreakAt(rem, 0) == Cut([], Hard, rem)
  {
    var paragraph := LastIndexOf(rem, ParagraphMark, 0);
    var sentence := LastIndexOf(rem, SentenceMark, 0);
    var word := LastIndexOf(rem, WordMark, 0);
    assert paragraph <= 0 && sentence <= 0 && word <= 0;
  }

  /** The parts the splitter's loop produces from rem, each with the break that ended it. */
  function Pieces(rem: Utf16, m: nat): seq<Piece>
    requires m >= 1
    decreases |rem|
  {
    if rem == [] then []
    else if |rem| <= m then [Piece(rem, Final)]
    else
      var c := BreakAt(rem, m);
      [Piece(c.part, c.kind)] + Pieces(c.rest, m)
  }

  /** One round of the loop: a text longer than m gives the part of its first cut, then the parts of the rest. */
  lemma PiecesStep(rem: Utf16, m: nat)
    requires m >= 1 && |rem| > m
    ensures Texts(Pieces(rem, m)) == [BreakAt(rem, m).part] + Texts(Pieces(BreakAt(rem, m).rest, m))
  {
    var c := BreakAt(rem, m);
    assert Pieces(rem, m) == [Piece(c.part, c.kind)] + Pieces(c.rest, m);
    TextsCons(Piece(c.part, c.kind), Pieces(c.rest, m));
  }

  lemma TextsCons(p: Piece, ps: seq<Piece>)
    ensures Texts([p] + ps) == [p.text] + Texts(ps)
  {
    var l, r := Texts([p] + ps), [p.text] + Texts(ps);
    assert |l| == |r|;
    forall i | 0 <= i < |l| ensures l[i] == r[i] {
      if i > 0 {
        assert ([p] + ps)[i] == ps[i - 1];
      }
    }
  }

  /**
   * One round of the loop that takes a cut: with `parts` emitted so far and
   * the loop's parts of `rem` still to come, emitting `part` leaves the loop's
   * parts of `rest` to come, where part and rest are the first cut of rem.
   */
  lemma LoopStep(parts: seq<Utf16>, rem: Utf16, m: nat, part: Utf16, rest: Utf16)
    requires m >= 1 && |rem| > m
    requires BreakAt(rem, m).part == part && BreakAt(rem, m).rest == rest
    ensures parts + Texts(Pieces(rem, m)) == (parts + [part]) + Texts(Pieces(rest, m))
  {
    PiecesStep(rem, m);
  }

  /** The text the parts came from: each part followed by the units its break consumed. */
  function Join(ps: seq<Piece>): Utf16 {
    if ps == [] then [] else ps[0].text + Separator(ps[0].kind) + Join(ps[1..])
  }

  /** The texts of the parts, without break information. */
  function Texts(ps: seq<Piece>): seq<Utf16> {
    seq(|ps|, i requires 0 <= i < |ps| => ps[i].text)
  }

  /** Round trip of the loop: joining its parts with the consumed separators restores the text. */
  lemma {:induction false} PiecesRoundTrip(rem: Utf16, m: nat)
    requires m >= 1
    ensures Join(Pieces(rem, m)) == rem
    decreases |rem|
  {
    if |rem| > m {
      var c := BreakAt(rem, m);
      var ps := Pieces(rem, m);
      PiecesRoundTrip(c.rest, m);
      assert ps[1..] == Pieces(c.rest, m);
    }
  }

  /**
   * Every part of the loop is non-empty and at most m long, except that a
   * part ended by a sentence break may be m + 1 long; only the last part can
   * be Final, and a non-empty text gives at least one part.
   */
  lemma {:induction false} PiecesShape(rem: Utf16, m: nat)
    requires m >= 1
    ensures var ps := Pieces(rem, m);
            && (|ps| == 0 <==> rem == [])
            && forall i :: 0 <= i < |ps| ==>
                 && ps[i].text != []
                 && (|ps[i].text| <= m || (ps[i].kind == Sentence && |ps[i].text| == m + 1))
                 && (ps[i].kind == Final ==> i == |ps| - 1)
    decreases |rem|
  {
    if |rem| > m {
      var c := BreakAt(rem, m);
      var ps := Pieces(rem, m);
      PiecesShape(c.rest, m);
      assert ps[1..] == Pieces(c.rest, m);
      forall i | 1 <= i < |ps|
        ensures ps[i] == Pieces(c.rest, m)[i - 1]
      {
      }
    }
  }

  /** The raw parts of a message with their breaks, including the two early returns. */
  function SplitPieces(message: Utf16, m: nat): seq<Piece>
    requires m >= 1 || message == []
  {
    if message == [] then [Piece([], Final)]
    else if |message| <= m then [Piece(message, Final)]
    else Pieces(message, m)
  }

  /** The parts of a message before labelling. */
  function RawSplit(message: Utf16, m: nat): seq<Utf16>
    requires m >= 1 || message == []
  {
    Texts(SplitPieces(message, m))
  }

  /** The label put in front of part i of n. */
  function PartLabel(i: nat, n: nat): Utf16 {
    Utf16Of("[Part " + NatToString(i) + "/" + NatToString(n) + "] ")
  }

  /** Part i (1-based) of n becomes "[Part i/n] " followed by the part. */
  function Label(parts: seq<Utf16>): (r: seq<Utf16>)
    ensures |r| == |parts|
    ensures forall i :: 0 <= i < |parts| ==> r[i] == PartLabel(i + 1, |parts|) + parts[i]
  {
    seq(|parts|, i requires 0 <= i < |parts| => PartLabel(i + 1, |parts|) + parts[i])
  }

  /** What the splitter returns: the raw parts, labelled when there is more than one. */
  function Split(message: Utf16, m: nat): seq<Utf16>
    requires m >= 1 || message == []
  {
    var raw := RawSplit(message, m);
    if |raw| > 1 then Label(raw) else raw
  }

  /**
   * Round trip of the splitter: the message is its raw parts joined by the
   * separators their breaks consumed (ParagraphMark after a paragraph break, WordMark
   * after a sentence or word break, nothing after a hard cut).
   */
  lemma SplitRoundTrip(message: Utf16, m: nat)
    requires m >= 1 || message == []
    ensures Join(SplitPieces(message, m)) == message
    ensures Texts(SplitPieces(message, m)) == RawSplit(message, m)
  {
    if message != [] && |message| > m {
      PiecesRoundTrip(message, m);
    }
  }

  /**
   * Length bound of the raw parts: at most m + 1, and at most m unless the
   * part was ended by a sentence break; there is always at least one part,
   * and every part of a non-empty message is non-empty.
   */
  lemma SplitBound(message: Utf16, m: nat)
    requires m >= 1 || message == []
    ensures var ps := SplitPieces(message, m);
            && |ps| >= 1
            && forall i :: 0 <= i < |ps| ==>
                 && |ps[i].text| <= m + 1
                 && (ps[i].kind != Sentence ==> |ps[i].text| <= m)
                 && (message != [] ==> ps[i].text != [])
  {
    if message != [] && |message| > m {
      PiecesShape(message, m);
    }
  }

  /** A message that fits, or an empty one, comes back as the single unlabelled part. */
  lemma SplitFits(message: Utf16, m: nat)
    requires m >= 1 || message == []
    requires |message| <= m || message == []
    ensures Split(message, m) == [message]
  {
  }

  /** With more than one part every part is labelled with its position and the count. */
  lemma SplitLabels(message: Utf16, m: nat)
    requires m >= 1 || message == []
    ensures var raw := RawSplit(message, m);
            && |Split(message, m)| == |raw|
            && (|raw| == 1 ==> Split(message, m) == raw)
            && (|raw| > 1 ==> forall i :: 0 <= i < |raw| ==> Split(message, m)[i] == PartLabel(i + 1, |raw|) + raw[i])
  {
  }

  /** "abcd. efgh" in code units: "abcd.", a space, "efgh". */
  lemma OverflowText()
    ensures Utf16Of("abcd.") == [0x61, 0x62, 0x63, 0x64, 0x2E]
    ensures Utf16Of("efgh") == [0x65, 0x66, 0x67, 0x68]
    ensures Utf16Of("abcd. efgh") == [0x61, 0x62, 0x63, 0x64, 0x2E] + WordMark + [0x65, 0x66, 0x67, 0x68]
  {
    BmpUnitsAre("abcd.", [0x61, 0x62, 0x63, 0x64, 0x2E]);
    BmpUnitsAre("efgh", [0x65, 0x66, 0x67, 0x68]);
    BmpUnitsAre("abcd. efgh", [0x61, 0x62, 0x63, 0x64, 0x2E] + WordMark + [0x65, 0x66, 0x67, 0x68]);
  }

  /**
   * A sentence end at the limit: a 5-unit part ending in '.' with no newline,
   * then a space and at most 4 more units, splits at 4 into that part and the
   * rest.
   */
  lemma SentenceEndAtLimit(first: Utf16, rest: Utf16)
    requires |first| == 5 && first[4] == FullStop && forall k :: 0 <= k < 5 ==> first[k] != LineFeed
    requires 1 <= |rest| <= 4
    ensures RawSplit(first + WordMark + rest, 4) == [first, rest]
  {
    var rem := first + WordMark + rest;
    assert LastIndexOf(rem, ParagraphMark, 4) == -1 by {
      forall k | 0 <= k <= 4 ensures !OccursAt(rem, ParagraphMark, k) {
        assert rem[k] == first[k];
        assert rem[k..k + 2][0] == rem[k];
      }
    }
    assert LastIndexOf(rem, SentenceMark, 4) == 4 by {
      assert rem[4..6] == SentenceMark;
    }
    SentenceSlices(rem, 4);
    assert BreakAt(rem, 4) == Cut(first, Sentence, rest) by {
      assert rem[..5] == first && rem[6..] == rest;
    }
    var ps := [Piece(first, Sentence), Piece(rest, Final)];
    assert Pieces(rem, 4) == ps;
    assert Texts(ps) == [first, rest];
  }

  /** The sentence branch does produce a part of length m + 1: "abcd. efgh" with m = 4 gives "abcd." first. */
  lemma SentenceBreakOverflows()
    ensures RawSplit(Utf16Of("abcd. efgh"), 4) == [Utf16Of("abcd."), Utf16Of("efgh")]
    ensures |Utf16Of("abcd.")| == 5
  {
    OverflowText();
    SentenceEndAtLimit([0x61, 0x62, 0x63, 0x64, 0x2E], [0x65, 0x66, 0x67, 0x68]);
  }

  /** "ab" followed by U+1F7E2 in code units. */
  lemma EmojiText()
    ensures Utf16Of("ab\U{1F7E2}") == [0x61, 0x62, 0xD83D, 0xDFE2]
  {
  }

  /** A text that never holds the first unit of pat has no occurrence of it. */
  lemma {:induction false} NoOccurrence(s: Utf16, pat: Utf16, position: int)
    requires pat != [] && forall k :: 0 <= k < |s| ==> s[k] != pat[0]
    ensures LastIndexOf(s, pat, position) == -1
  {
    forall k | 0 <= k ensures !OccursAt(s, pat, k) {
      if k + |pat| <= |s| {
        assert s[k..k + |pat|][0] == s[k];
      }
    }
  }

  /** The hard cut of a text with no break mark at 3 keeps the first 3 units. */
  lemma HardCutAtThree()
    ensures RawSplit([0x61, 0x62, 0xD83D, 0xDFE2], 3) == [[0x61, 0x62, 0xD83D], [0xDFE2]]
  {
    var u: Utf16 := [0x61, 0x62, 0xD83D, 0xDFE2];
    NoOccurrence(u, ParagraphMark, 3);
    NoOccurrence(u, SentenceMark, 3);
    NoOccurrence(u, WordMark, 3);
    HardSlices(u, 3);
    assert u[..3] == [0x61, 0x62, 0xD83D] && u[3..] == [0xDFE2];
    assert Pieces(u, 3) == [Piece(u[..3], Hard), Piece(u[3..], Final)] by {
      assert Pieces(u[3..], 3) == [Piece(u[3..], Final)];
    }
  }

  /**
   * Lengths count code units, so an emoji counts twice, and the hard cut can
   * fall between the two halves of a surrogate pair: "ab" followed by U+1F7E2
   * is 4 units long and, at a limit of 3, splits after the high surrogate.
   */
  lemma SplitsSurrogatePair()
    ensures var u := Utf16Of("ab\U{1F7E2}");
            && |u| == 4
            && RawSplit(u, 3) == [u[..3], u[3..]]
            && IsHighSurrogate(u[2]) && IsLowSurrogate(u[3])
  {
    EmojiText();
    HardCutAtThree();
    var u: Utf16 := [0x61, 0x62, 0xD83D, 0xDFE2];
    assert u[..3] == [0x61, 0x62, 0xD83D] && u[3..] == [0xDFE2];
  }

  /** Two emoji are four units: over a limit of 3 they truncate to "..." alone. */
  lemma TruncatesEmojiPair()
    ensures TruncateMessage(Utf16Of("\U{1F7E2}\U{1F7E2}"), 3) == Ellipsis
  {
    var u := Utf16Of("\U{1F7E2}\U{1F7E2}");
    assert |u| == 4;
  }

  /**
   * One pass of the splitting loop over a text still longer than the limit:
   * the part it cuts from the front and the text left after the break.
   */
  method NextPart(rem: Utf16, maxLength: nat) returns (part: Utf16, rest: Utf16)
    requires maxLength >= 1 && |rem| > maxLength
    ensures part == BreakAt(rem, maxLength).part && rest == BreakAt(rem, maxLength).rest
  {
    var breakPoint := LastIndexOf(rem, ParagraphMark, maxLength);
    if 4 * breakPoint > 3 * maxLength {
      ParagraphSlices(rem, maxLength);
      return rem[..breakPoint], rem[breakPoint + 2..];
    }
    breakPoint := LastIndexOf(rem, SentenceMark, maxLength);
    if 4 * breakPoint > 3 * maxLength {
      SentenceSlices(rem, maxLength);
      return rem[..breakPoint + 1], rem[breakPoint + 2..];
    }
    breakPoint := LastIndexOf(rem, WordMark, maxLength);
    if 2 * breakPoint > maxLength {
      WordSlices(rem, maxLength);
      return rem[..breakPoint], rem[breakPoint + 1..];
    }
    HardSlices(rem, maxLength);
    return rem[..maxLength], rem[maxLength..];
  }

  /**
   * The splitter's loop. Each round either emits the remaining text as the
   * last part or cuts one part off its front at the preferred break; parts
   * are labelled at the end when there is more than one. A limit of 0 is
   * only allowed for the empty message: the loop never advances otherwise.
   */
  method SplitMessage(message: Utf16, maxLength: nat := DefaultSplitLength) returns (parts: seq<Utf16>)
    requires maxLength >= 1 || message == []
    ensures parts == Split(message, maxLength)
  {
    if message == [] {
      return [[]];
    }
    if |message| <= maxLength {
      return [message];
    }
    parts := [];
    var remainingText := message;
    while |remainingText| > 0
      invariant parts + Texts(Pieces(remainingText, maxLength)) == Texts(Pieces(message, maxLength))
      decreases |remainingText|
    {
      if |remainingText| <= maxLength {
        parts := parts + [remainingText];
        break;
      }
      var part, rest := NextPart(remainingText, maxLength);
      LoopStep(parts, remainingText, maxLength, part, rest);
      parts := parts + [part];
      remainingText := rest;
    }
    assert parts == RawSplit(message, maxLength);
    if |parts| > 1 {
      parts := Label(parts);
    }
  }

  /**
   * Truncation: the empty message stays empty, a message within maxLength
   * is unchanged, and a longer one becomes its first maxLength - 3
   * units (none when maxLength < 3) followed by "...".
   */
  function TruncateMessage(message: Utf16, maxLength: int := DefaultTruncateLength): (r: Utf16)
    ensures message == [] ==> r == []
    ensures |message| <= maxLength ==> r == message
    ensures message != [] && |message| > maxLength ==>
              && |r| >= 3 && r[|r| - 3..] == Ellipsis
              && r[..|r| - 3] <= message
              && |r| == (if maxLength >= 3 then maxLength else 3)
  {
    if message == [] then []
    else if |message| <= maxLength then message
    else
      var kept := message[..if maxLength - 3 < 0 then 0 else maxLength - 3];
      var r := kept + Ellipsis;
      assert r[..|kept|] == kept && r[|kept|..] == Ellipsis;
      r
  }

  /**
   * Truncating again changes nothing, and the result never exceeds
   * maxLength, except that a non-empty message over a maxLength below 3
   * becomes Ellipsis.
   */
  lemma TruncateIdempotent(message: Utf16, maxLength: int)
    ensures TruncateMessage(TruncateMessage(message, maxLength), maxLength) == TruncateMessage(message, maxLength)
    ensures |TruncateMessage(message, maxLength)| <= (if maxLength >= 3 then maxLength else 3)
    ensures message != [] && maxLength < 3 && |message| > maxLength ==> TruncateMessage(message, maxLength) == Ellipsis
  {
    if message != [] && |message| > maxLength {
      if maxLength < 3 {
        EllipsisOnly(message, maxLength);
      } else {
        assert |TruncateMessage(message, maxLength)| == maxLength;
      }
    }
  }

  /** Below 3 units of room, a non-empty message over the limit truncates to "...", which truncates to itself. */
  lemma EllipsisOnly(message: Utf16, maxLength: int)
    requires message != [] && maxLength < 3 && |message| > maxLength
    ensures TruncateMessage(message, maxLength) == Ellipsis
    ensures TruncateMessage(Ellipsis, maxLength) == Ellipsis
  {
  }
}
