/**
  The text preparation of the corpus extractor: the lightweight removal of
  C-style comments (a `re.sub` whose pattern has four alternatives, a line
  comment, a block comment, a single-quoted and a double-quoted literal,
  under DOTALL and MULTILINE, and whose replacer turns a match that starts
  with a slash into one space and keeps any other match), and Python's
  `str.splitlines`.
 */
module Comments {
  import opened Wrappers
  import opened Text
  import opened Ordered
  import opened Patterns

  // ---------------------------------------------------------------- the pattern

  /**
    `(?:\\.|[^\\q])*q` from `i`: the end of a quoted literal, just after its
    closing quote. The two alternatives differ on their first character, and
    no repetition boundary is at a quote, so the greedy loop ends at the
    first unescaped quote and there is nothing to backtrack into; without one
    the literal does not match.
   */
  function LiteralRest(s: string, i: nat, q: char): (r: Option<nat>)
    requires i <= |s|
    ensures r.Some? ==> i < r.value <= |s| && s[r.value - 1] == q
    decreases |s| - i
  {
    if i == |s| then None
    else if s[i] == q then Some(i + 1)
    else if s[i] == '\\' then (if i + 1 < |s| then LiteralRest(s, i + 2, q) else None)
    else LiteralRest(s, i + 1, q)
  }

  /**
    The end of the match at `p`, the alternatives tried in order: a line
    comment runs to the next `\n` or the end (the lazy `.*?` stops at the
    first place where `$` holds); a block comment to the first star-slash after
    its opening; a literal to its closing quote. An unclosed block comment or an
    unterminated literal does not match.
   */
  function TokenEnd(s: string, p: nat): (r: Option<nat>)
    requires p < |s|
    ensures r.Some? ==> p < r.value <= |s|
  {
    if OccursAt(s, "//", p) then Some(Skip(s, p + 2, IsNotNewline))
    else if OccursAt(s, "/*", p) then
      match FindFrom(s, "*/", p + 2)
      case None => None
      case Some(i) => Some(i + 2)
    else if IsQuote(s[p]) then LiteralRest(s, p + 1, s[p])
    else None
  }

  /** A piece of the text as `re.sub` walks it: a match that is a comment, a match that is a literal, or a character copied as it is. */
  datatype Piece = Comment(text: string) | Literal(text: string) | Other(c: char)

  /** The pieces of `s[p..]`: the leftmost match at each step, or one copied character where nothing matches. */
  function PiecesFrom(s: string, p: nat): seq<Piece>
    requires p <= |s|
    decreases |s| - p
  {
    if p == |s| then []
    else
      match TokenEnd(s, p)
      case Some(e) => [if s[p] == '/' then Comment(s[p..e]) else Literal(s[p..e])] + PiecesFrom(s, e)
      case None => [Other(s[p])] + PiecesFrom(s, p + 1)
  }

  function Original(pc: Piece): string {
    match pc
    case Comment(t) => t
    case Literal(t) => t
    case Other(c) => [c]
  }

  /** The replacer: a match that starts with `/` becomes one space, anything else is kept. */
  function Replacement(pc: Piece): string {
    match pc
    case Comment(_) => " "
    case Literal(t) => t
    case Other(c) => [c]
  }

  /** `commentRemover`. */
  function CommentRemover(text: string): string {
    FlatMap(PiecesFrom(text, 0), Replacement)
  }

  // ---------------------------------------------------------------- what the pieces are

  predicate IsLineComment(t: string) {
    |t| >= 2 && t[..2] == "//" && '\n' !in t
  }

  predicate IsBlockComment(t: string) {
    |t| >= 4 && t[..2] == "/*" && t[|t| - 2..] == "*/"
    && forall i :: 2 <= i < |t| - 2 ==> !OccursAt(t, "*/", i)
  }

  /** A literal body: escape pairs and characters that are neither a backslash nor the quote. */
  predicate EscapedBody(b: string, q: char)
    decreases |b|
  {
    |b| == 0
    || (b[0] == '\\' && |b| >= 2 && EscapedBody(b[2..], q))
    || (b[0] != '\\' && b[0] != q && EscapedBody(b[1..], q))
  }

  predicate IsLiteral(t: string) {
    |t| >= 2 && IsQuote(t[0]) && t[|t| - 1] == t[0] && EscapedBody(t[1..|t| - 1], t[0])
  }

  /** What each kind of piece looks like. */
  predicate Shaped(pc: Piece) {
    match pc
    case Comment(t) => IsLineComment(t) || IsBlockComment(t)
    case Literal(t) => IsLiteral(t)
    case Other(_) => true
  }

  lemma {:induction false} LiteralRestBody(s: string, i: nat, q: char)
    requires i <= |s| && LiteralRest(s, i, q).Some?
    ensures EscapedBody(s[i..LiteralRest(s, i, q).value - 1], q)
    decreases |s| - i
  {
    var e := LiteralRest(s, i, q).value;
    var b := s[i..e - 1];
    if s[i] == q {
      assert b == [];
    } else if s[i] == '\\' {
      LiteralRestBody(s, i + 2, q);
      assert b[2..] == s[i + 2..e - 1];
    } else {
      LiteralRestBody(s, i + 1, q);
      assert b[1..] == s[i + 1..e - 1];
    }
  }

  lemma LineCommentShaped(s: string, p: nat)
    requires OccursAt(s, "//", p)
    ensures IsLineComment(s[p..Skip(s, p + 2, IsNotNewline)])
    ensures LineCommentAt(s, p, Skip(s, p + 2, IsNotNewline))
  {
    var e := Skip(s, p + 2, IsNotNewline);
    var t := s[p..e];
    assert t[..2] == s[p..p + 2];
    forall j | 0 <= j < |t| ensures t[j] != '\n' {
      assert t[j] == s[p + j];
    }
  }

  lemma BlockCommentShaped(s: string, p: nat, i0: nat)
    requires OccursAt(s, "/*", p) && FindFrom(s, "*/", p + 2) == Some(i0)
    ensures IsBlockComment(s[p..i0 + 2])
  {
    var t := s[p..i0 + 2];
    assert t[..2] == s[p..p + 2] by {
      SliceOfSlice(s, p, i0 + 2, 0, 2);
    }
    assert t[|t| - 2..] == s[i0..i0 + 2] by {
      SliceOfSlice(s, p, i0 + 2, |t| - 2, |t|);
    }
    forall i | 2 <= i < |t| - 2 ensures !OccursAt(t, "*/", i) {
      SliceOfSlice(s, p, i0 + 2, i, i + 2);
      assert !OccursAt(s, "*/", p + i);
    }
  }

  lemma LiteralShaped(s: string, p: nat)
    requires p < |s| && IsQuote(s[p]) && LiteralRest(s, p + 1, s[p]).Some?
    ensures IsLiteral(s[p..LiteralRest(s, p + 1, s[p]).value])
  {
    LiteralRestBody(s, p + 1, s[p]);
    LiteralSliceShaped(s, p, LiteralRest(s, p + 1, s[p]).value);
  }

  lemma LiteralSliceShaped(s: string, p: nat, e: nat)
    requires p + 2 <= e <= |s| && IsQuote(s[p]) && s[e - 1] == s[p] && EscapedBody(s[p + 1..e - 1], s[p])
    ensures IsLiteral(s[p..e])
  {
    var t := s[p..e];
    SliceOfSlice(s, p, e, 1, |t| - 1);
    assert t[0] == s[p] && t[|t| - 1] == s[e - 1];
  }


  /** The piece at `p` and where the next one starts. */
  function Step(s: string, p: nat): (r: (Piece, nat))
    requires p < |s|
    ensures p < r.1 <= |s|
  {
    match TokenEnd(s, p)
    case Some(e) => (if s[p] == '/' then Comment(s[p..e]) else Literal(s[p..e]), e)
    case None => (Other(s[p]), p + 1)
  }

  lemma PiecesFromStep(s: string, p: nat)
    requires p < |s|
    ensures PiecesFrom(s, p) == [Step(s, p).0] + PiecesFrom(s, Step(s, p).1)
    ensures Original(Step(s, p).0) == s[p..Step(s, p).1]
    ensures Step(s, p).0.Comment? ==> s[p] == '/'
  {
  }

  /** The piece at `p` is shaped. */
  lemma StepShaped(s: string, p: nat)
    requires p < |s|
    ensures Shaped(Step(s, p).0)
  {
    if OccursAt(s, "//", p) {
      assert s[p] == s[p..p + 2][0];
      assert Step(s, p).0 == Comment(s[p..Skip(s, p + 2, IsNotNewline)]);
      LineCommentShaped(s, p);
    } else if OccursAt(s, "/*", p) && FindFrom(s, "*/", p + 2).Some? {
      var i0 := FindFrom(s, "*/", p + 2).value;
      assert s[p] == s[p..p + 2][0];
      assert Step(s, p).0 == Comment(s[p..i0 + 2]);
      BlockCommentShaped(s, p, i0);
    } else if IsQuote(s[p]) && LiteralRest(s, p + 1, s[p]).Some? {
      assert !OccursAt(s, "//", p) && !OccursAt(s, "/*", p) by {
        assert p + 2 <= |s| ==> s[p..p + 2][0] == s[p];
      }
      assert Step(s, p).0 == Literal(s[p..LiteralRest(s, p + 1, s[p]).value]);
      LiteralShaped(s, p);
    }
  }

  /** Every piece is shaped. */
  lemma {:induction false} PiecesShaped(s: string, p: nat)
    requires p <= |s|
    ensures forall pc :: pc in PiecesFrom(s, p) ==> Shaped(pc)
    decreases |s| - p
  {
    if p < |s| {
      PiecesFromStep(s, p);
      StepShaped(s, p);
      PiecesShaped(s, Step(s, p).1);
    }
  }

  lemma FlatMapCons<T, U>(x: T, xs: seq<T>, f: T -> seq<U>)
    ensures FlatMap([x] + xs, f) == f(x) + FlatMap(xs, f)
  {
    FlatMapAppend([x], xs, f);
    assert FlatMap([x], f) == FlatMap([], f) + f(x);
  }

  /** The pieces cover the text: their original texts, in order, give it back. */
  lemma {:induction false} PiecesCover(s: string, p: nat)
    requires p <= |s|
    ensures FlatMap(PiecesFrom(s, p), Original) == s[p..]
    decreases |s| - p
  {
    if p < |s| {
      PiecesFromStep(s, p);
      PiecesCover(s, Step(s, p).1);
      CoverStep(s, p, Step(s, p).1, Step(s, p).0, PiecesFrom(s, Step(s, p).1), Original);
    }
  }

  /** A piece whose image is `s[p..e]` before pieces whose images give `s[e..]`. */
  lemma CoverStep(s: string, p: nat, e: nat, pc: Piece, rest: seq<Piece>, f: Piece -> string)
    requires p <= e <= |s| && f(pc) == s[p..e] && FlatMap(rest, f) == s[e..]
    ensures FlatMap([pc] + rest, f) == s[p..]
  {
    FlatMapCons(pc, rest, f);
    assert s[p..] == s[p..e] + s[e..];
  }


  /** Text without a `/` has no comment, so nothing is removed from it. */
  lemma {:induction false} NoSlashUnchanged(s: string, p: nat)
    requires p <= |s| && '/' !in s[p..]
    ensures FlatMap(PiecesFrom(s, p), Replacement) == s[p..]
    decreases |s| - p
  {
    if p < |s| {
      assert s[p] in s[p..];
      PiecesFromStep(s, p);
      var (pc, e) := Step(s, p);
      assert '/' !in s[e..] by {
        forall j | e <= j < |s| ensures s[j] != '/' {
          assert s[j] in s[p..];
        }
      }
      NoSlashUnchanged(s, e);
      assert Replacement(pc) == Original(pc);
      CoverStep(s, p, e, pc, PiecesFrom(s, e), Replacement);
    }
  }


  /**
    `commentRemover` keeps every literal and every other character, replaces
    every comment by one space, and the pieces it works on are the whole text.
   */
  lemma CommentRemoverProperties(text: string)
    ensures FlatMap(PiecesFrom(text, 0), Original) == text
    ensures forall pc :: pc in PiecesFrom(text, 0) ==> Shaped(pc)
    ensures '/' !in text ==> CommentRemover(text) == text
  {
    PiecesCover(text, 0);
    PiecesShaped(text, 0);
    if '/' !in text {
      NoSlashUnchanged(text, 0);
    }
  }

  // ---------------------------------------------------------------- what `re.sub` does, independently

  /** A line comment at `p` ending at `e`: `//`, then no `\n`, then a `\n` or the end of the text. */
  predicate LineCommentAt(s: string, p: nat, e: nat) {
    OccursAt(s, "//", p) && p + 2 <= e <= |s|
    && (forall j :: p + 2 <= j < e ==> s[j] != '\n')
    && (e == |s| || s[e] == '\n')
  }

  /** Some alternative of the pattern matches exactly `s[p..e]`. */
  predicate TokenAt(s: string, p: nat, e: nat) {
    p < e <= |s| && (LineCommentAt(s, p, e) || IsBlockComment(s[p..e]) || IsLiteral(s[p..e]))
  }

  /** No alternative of the pattern matches at `p`, whatever the length. */
  predicate NoTokenAt(s: string, p: nat) {
    forall e :: p < e <= |s| ==> !TokenAt(s, p, e)
  }

  /** How many characters of the text a piece stands for. */
  function Width(pc: Piece): nat {
    match pc
    case Other(_) => 1
    case Comment(t) => |t|
    case Literal(t) => |t|
  }

  /**
    `pc` is what `re.sub` does at `p`: where the pattern matches, the match
    (a comment when it starts with `/`, a literal otherwise), and where it
    does not, the one character, copied.
   */
  predicate PieceAt(s: string, p: nat, pc: Piece)
    requires p < |s|
  {
    p + Width(pc) <= |s| &&
    match pc
    case Other(c) => c == s[p] && NoTokenAt(s, p)
    case Comment(t) => s[p] == '/' && t == s[p..p + |t|] && TokenAt(s, p, p + |t|)
    case Literal(t) => s[p] != '/' && t == s[p..p + |t|] && TokenAt(s, p, p + |t|)
  }

  /** `pieces` is how `re.sub` walks `s[p..]`: one piece after another, each what it does at its position. */
  predicate Lexes(s: string, p: nat, pieces: seq<Piece>)
    decreases |pieces|
  {
    p <= |s| &&
    if |pieces| == 0 then p == |s|
    else p < |s| && PieceAt(s, p, pieces[0]) && Lexes(s, p + Width(pieces[0]), pieces[1..])
  }


  /** A literal body closed by an unescaped quote at `k` is exactly what the literal scan finds. */
  lemma {:induction false} LiteralRestComplete(s: string, i: nat, k: nat, q: char)
    requires i <= k < |s| && s[k] == q && q != '\\' && EscapedBody(s[i..k], q)
    ensures LiteralRest(s, i, q) == Some(k + 1)
    decreases k - i
  {
    var b := s[i..k];
    if i < k {
      assert b[0] == s[i];
      if s[i] == '\\' {
        assert b[2..] == s[i + 2..k];
        LiteralRestComplete(s, i + 2, k, q);
      } else {
        assert b[1..] == s[i + 1..k];
        LiteralRestComplete(s, i + 1, k, q);
      }
    }
  }

  /** A scan stops at the first character it does not keep. */
  lemma {:induction false} SkipStops(s: string, p: nat, e: nat, keep: char -> bool)
    requires p <= e <= |s| && (forall j :: p <= j < e ==> keep(s[j])) && (e == |s| || !keep(s[e]))
    ensures Skip(s, p, keep) == e
    decreases e - p
  {
    if p < e {
      SkipStops(s, p + 1, e, keep);
    }
  }

  /** A line comment ends where the scan for the newline stops. */
  lemma LineCommentEnd(s: string, p: nat, e: nat)
    requires LineCommentAt(s, p, e)
    ensures Skip(s, p + 2, IsNotNewline) == e
  {
    SkipStops(s, p + 2, e, IsNotNewline);
  }

  /** Inside a block comment there is no star-slash before its closing one. */
  lemma BlockCommentInner(s: string, p: nat, e: nat)
    requires p < e <= |s| && IsBlockComment(s[p..e])
    ensures OccursAt(s, "/*", p) && OccursAt(s, "*/", e - 2) && p + 4 <= e
    ensures forall i :: p + 2 <= i < e - 2 ==> !OccursAt(s, "*/", i)
  {
    var t := s[p..e];
    SliceOfSlice(s, p, e, 0, 2);
    SliceOfSlice(s, p, e, |t| - 2, |t|);
    forall i | p + 2 <= i < e - 2 ensures !OccursAt(s, "*/", i) {
      SliceOfSlice(s, p, e, i - p, i - p + 2);
      assert !OccursAt(t, "*/", i - p);
    }
  }

  /** A block comment ends where the scan for the first star-slash stops. */
  lemma BlockCommentEnd(s: string, p: nat, e: nat)
    requires p < e <= |s| && IsBlockComment(s[p..e])
    ensures TokenEnd(s, p) == Some(e)
  {
    BlockCommentInner(s, p, e);
    assert s[p..p + 2][1] == s[p + 1];
    assert s[p + 1] == '*';
    assert !OccursAt(s, "//", p);
    assert FindFrom(s, "*/", p + 2) == Some(e - 2);
  }

  /** A literal ends where the scan for its closing quote stops. */
  lemma LiteralEnd(s: string, p: nat, e: nat)
    requires p < e <= |s| && IsLiteral(s[p..e])
    ensures TokenEnd(s, p) == Some(e)
  {
    var t := s[p..e];
    assert t[0] == s[p] && t[|t| - 1] == s[e - 1];
    SliceOfSlice(s, p, e, 1, |t| - 1);
    assert p + 2 <= |s| ==> s[p..p + 2][0] == s[p];
    assert !OccursAt(s, "//", p) && !OccursAt(s, "/*", p);
    LiteralRestComplete(s, p + 1, e - 1, s[p]);
  }

  /** Every match of the pattern at `p` is the one the scan finds. */
  lemma TokenAtEnd(s: string, p: nat, e: nat)
    requires p < |s|
    ensures TokenAt(s, p, e) ==> TokenEnd(s, p) == Some(e)
  {
    if TokenAt(s, p, e) {
      if LineCommentAt(s, p, e) {
        LineCommentEnd(s, p, e);
      } else if IsBlockComment(s[p..e]) {
        BlockCommentEnd(s, p, e);
      } else {
        LiteralEnd(s, p, e);
      }
    }
  }

  /** What the scan finds at `p` is a match of the pattern. */
  lemma TokenEndSound(s: string, p: nat)
    requires p < |s|
    ensures TokenEnd(s, p).Some? ==> TokenAt(s, p, TokenEnd(s, p).value)
  {
    if OccursAt(s, "//", p) {
      LineCommentShaped(s, p);
    } else if OccursAt(s, "/*", p) && FindFrom(s, "*/", p + 2).Some? {
      BlockCommentShaped(s, p, FindFrom(s, "*/", p + 2).value);
    } else if IsQuote(s[p]) && LiteralRest(s, p + 1, s[p]).Some? {
      LiteralShaped(s, p);
    }
  }

  /** The scan finds a match at `p` exactly when the pattern matches there, and then the same one. */
  lemma TokenEndIff(s: string, p: nat)
    requires p < |s|
    ensures TokenEnd(s, p).None? <==> NoTokenAt(s, p)
    ensures forall e: nat :: TokenEnd(s, p) == Some(e) <==> TokenAt(s, p, e)
  {
    TokenEndSound(s, p);
    forall e: nat ensures TokenAt(s, p, e) ==> TokenEnd(s, p) == Some(e) {
      TokenAtEnd(s, p, e);
    }
  }

  /** The piece the scan finds at `p` is what `re.sub` does there. */
  lemma StepPieceAt(s: string, p: nat)
    requires p < |s|
    ensures PieceAt(s, p, Step(s, p).0) && Step(s, p).1 == p + Width(Step(s, p).0)
  {
    TokenEndIff(s, p);
  }

  /** What `re.sub` does at `p` is the piece the scan finds. */
  lemma PieceAtStep(s: string, p: nat, pc: Piece)
    requires p < |s| && PieceAt(s, p, pc)
    ensures pc == Step(s, p).0 && Step(s, p).1 == p + Width(pc)
  {
    if pc.Other? {
      TokenEndSound(s, p);
      assert TokenEnd(s, p).None?;
    } else {
      TokenAtEnd(s, p, p + |pc.text|);
    }
  }

  /** The pieces of `s[p..]` are how `re.sub` walks it. */
  lemma {:induction false} PiecesLex(s: string, p: nat)
    requires p <= |s|
    ensures Lexes(s, p, PiecesFrom(s, p))
    decreases |s| - p
  {
    if p < |s| {
      PiecesFromStep(s, p);
      StepPieceAt(s, p);
      PiecesLex(s, Step(s, p).1);
      assert PiecesFrom(s, p)[1..] == PiecesFrom(s, Step(s, p).1);
    }
  }

  /** A walk of `s[p..]` starts with the piece the scan finds. */
  lemma LexesHead(s: string, p: nat, pieces: seq<Piece>)
    requires p < |s| && Lexes(s, p, pieces)
    ensures |pieces| > 0 && pieces[0] == Step(s, p).0 && Lexes(s, Step(s, p).1, pieces[1..])
  {
    PieceAtStep(s, p, pieces[0]);
  }



  /** There is only one walk of `s[p..]`. */
  lemma {:induction false} LexesUnique(s: string, p: nat, a: seq<Piece>, b: seq<Piece>)
    requires Lexes(s, p, a) && Lexes(s, p, b)
    ensures a == b
    decreases |a|
  {
    if p < |s| {
      LexesHead(s, p, a);
      LexesHead(s, p, b);
      LexesUnique(s, Step(s, p).1, a[1..], b[1..]);
      assert a == [a[0]] + a[1..] && b == [b[0]] + b[1..];
    } else {
      assert |a| == 0 && |b| == 0;
    }
  }

  /**
    `commentRemover` is `re.sub` with the replacer: for the one way of
    walking the text, it is the text with every comment turned into one
    space and every literal and other character kept.
   */
  lemma CommentRemoverSpec(text: string, pieces: seq<Piece>)
    requires Lexes(text, 0, pieces)
    ensures CommentRemover(text) == FlatMap(pieces, Replacement)
    ensures FlatMap(pieces, Original) == text
  {
    PiecesLex(text, 0);
    LexesUnique(text, 0, pieces, PiecesFrom(text, 0));
    PiecesCover(text, 0);
  }

  lemma LineCommentExamplePieces()
    ensures PiecesFrom("a//b\nc", 0) == [Other('a'), Comment("//b"), Other('\n'), Other('c')]
  {
    var s := "a//b\nc";
    assert s[0..2][0] == 'a' && s[4..6][0] == '\n' && s[1..3] == "//";
    assert TokenEnd(s, 0) == None;
    assert Skip(s, 3, IsNotNewline) == 4;
    assert TokenEnd(s, 4) == None && TokenEnd(s, 5) == None;
    assert PiecesFrom(s, 5) == [Other('c')];
    assert PiecesFrom(s, 4) == [Other('\n'), Other('c')];
    assert TokenEnd(s, 1) == Some(4);
    assert s[1..4] == "//b";
    assert PiecesFrom(s, 1) == [Comment("//b"), Other('\n'), Other('c')];
  }

  /** A line comment becomes one space and the newline after it stays. */
  lemma LineCommentExample()
    ensures CommentRemover("a//b\nc") == "a \nc"
  {
    var ps := [Other('a'), Comment("//b"), Other('\n'), Other('c')];
    LineCommentExamplePieces();
    assert FlatMap(ps[..1], Replacement) == "a" by {
      assert ps[..1][..0] == [];
    }
    assert FlatMap(ps[..2], Replacement) == "a " by {
      assert ps[..2][..1] == ps[..1];
    }
    assert FlatMap(ps[..3], Replacement) == "a \n" by {
      assert ps[..3][..2] == ps[..2];
    }
    assert ps[..4] == ps && ps[..4][..3] == ps[..3];
  }


  /** Comment markers inside a literal are kept. */
  lemma LiteralExample()
    ensures CommentRemover("'//'") == "'//'"
  {
    var s := "'//'";
    assert s[0..2][0] == '\'';
    assert LiteralRest(s, 1, '\'') == Some(4);
    FlatMapCons(Literal(s), PiecesFrom(s, 4), Replacement);
  }

  // ---------------------------------------------------------------- lines

  /** The line boundaries of `str.splitlines`: `\n`, `\v`, `\f`, `\r`, `\x1c`, `\x1d`, `\x1e`, `\x85`, U+2028 and U+2029. */
  predicate IsLineBoundary(c: char) {
    (10 <= c as int <= 13) || (0x1C <= c as int <= 0x1E) || c as int == 0x85
    || c as int == 0x2028 || c as int == 0x2029
  }

  predicate IsNotLineBoundary(c: char) { !IsLineBoundary(c) }

  /** `str.splitlines()`: the lines without their boundaries; `\r\n` is one boundary and a final boundary starts no line. */
  function SplitLines(s: string): (lines: seq<string>)
    decreases |s|
  {
    if |s| == 0 then []
    else
      var e := Skip(s, 0, IsNotLineBoundary);
      var next := if e == |s| then e else if s[e] == '\r' && e + 1 < |s| && s[e + 1] == '\n' then e + 2 else e + 1;
      [s[..e]] + SplitLines(s[next..])
  }

  predicate NoBoundary(line: string) {
    forall j :: 0 <= j < |line| ==> !IsLineBoundary(line[j])
  }

  /** No line holds a boundary character. */
  lemma {:induction false} SplitLinesNoBoundary(s: string)
    ensures forall i :: 0 <= i < |SplitLines(s)| ==> NoBoundary(SplitLines(s)[i])
    decreases |s|
  {
    if |s| > 0 {
      var e := Skip(s, 0, IsNotLineBoundary);
      var next := if e == |s| then e else if s[e] == '\r' && e + 1 < |s| && s[e + 1] == '\n' then e + 2 else e + 1;
      var rest := SplitLines(s[next..]);
      SplitLinesNoBoundary(s[next..]);
      assert SplitLines(s) == [s[..e]] + rest;
      assert NoBoundary(s[..e]);
    }
  }

  function Terminated(line: string): string { line + "\n" }

  /** Splitting the lines back out of their `\n`-terminated concatenation gives them back. */
  lemma {:induction false} SplitLinesTerminated(lines: seq<string>)
    requires forall i :: 0 <= i < |lines| ==> NoBoundary(lines[i])
    ensures SplitLines(FlatMap(lines, Terminated)) == lines
    decreases |lines|
  {
    if |lines| > 0 {
      var l := lines[0];
      var rest := FlatMap(lines[1..], Terminated);
      assert lines == [l] + lines[1..];
      FlatMapCons(l, lines[1..], Terminated);
      var s := FlatMap(lines, Terminated);
      assert s == l + "\n" + rest;
      var e := Skip(s, 0, IsNotLineBoundary);
      assert s[|l|] == '\n';
      assert forall j :: 0 <= j < |l| ==> s[j] == l[j];
      assert e == |l|;
      assert s[..e] == l;
      assert s[e + 1..] == rest;
      SplitLinesTerminated(lines[1..]);
    }
  }

  /** What `read_uncomment_lines` yields for one file's text. */
  function FileLines(text: string, split: bool, removeComments: bool): (lines: seq<string>)
    ensures !split && !removeComments ==> lines == [text]
    ensures !split && removeComments ==> lines == [CommentRemover(text)]
    ensures split && !removeComments ==> lines == SplitLines(text)
    ensures split && removeComments ==> lines == SplitLines(CommentRemover(text))
  {
    var t := if removeComments then CommentRemover(text) else text;
    if split then SplitLines(t) else [t]
  }
}
