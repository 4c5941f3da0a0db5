/** The glob matcher behind KEYS and SCAN, and what its patterns mean. */
module Globs {

  // Characters are numbers in the order the platform's `char` gives them, signed or not.
  const STAR := '*' as int
  const ANY := '?' as int
  const OPEN := '[' as int
  const CLOSE := ']' as int
  const CARET := '^' as int
  const BANG := '!' as int
  const DASH := '-' as int
  const ESCAPE := '\\' as int

  type Text = seq<int>

  // ---------------------------------------------------------------------------
  // What a pattern means
  // ---------------------------------------------------------------------------

  datatype Range = Range(lo: int, hi: int)

  datatype Token = Star | Any | Lit(c: int) | Class(negate: bool, ranges: seq<Range>)

  predicate InClass(ranges: seq<Range>, c: int) {
    exists i :: 0 <= i < |ranges| && ranges[i].lo <= c <= ranges[i].hi
  }

  predicate Accepts(t: Token, c: int) {
    match t
    case Star => false
    case Any => true
    case Lit(d) => c == d
    case Class(negate, ranges) => InClass(ranges, c) != negate
  }

  /** A star matches any stretch of text, every other token one character it accepts. */
  predicate Matches(ts: seq<Token>, w: Text)
    decreases |ts| + |w|
  {
    if ts == [] then w == []
    else if ts[0].Star? then Matches(ts[1..], w) || (w != [] && Matches(ts, w[1..]))
    else w != [] && Accepts(ts[0], w[0]) && Matches(ts[1..], w[1..])
  }

  /** Whether an item at `q` is a range a-b; a dash just before the closing bracket is a plain character. */
  predicate IsRange(pat: Text, q: nat) {
    q + 2 < |pat| && pat[q + 1] == DASH && pat[q + 2] != CLOSE
  }

  function ClassRanges(pat: Text, q: nat): seq<Range>
    requires q <= |pat|
    decreases |pat| - q
  {
    if q == |pat| || pat[q] == CLOSE then []
    else if IsRange(pat, q) then [Range(pat[q], pat[q + 2])] + ClassRanges(pat, q + 3)
    else [Range(pat[q], pat[q])] + ClassRanges(pat, q + 1)
  }

  /** The closing bracket of a class, or the end of the pattern if there is none. */
  function ClassEnd(pat: Text, q: nat): (e: nat)
    requires q <= |pat|
    ensures q <= e <= |pat|
    decreases |pat| - q
  {
    if q == |pat| || pat[q] == CLOSE then q
    else if IsRange(pat, q) then ClassEnd(pat, q + 3)
    else ClassEnd(pat, q + 1)
  }

  predicate Negated(pat: Text, q: nat) {
    q < |pat| && (pat[q] == CARET || pat[q] == BANG)
  }

  function ClassBody(pat: Text, p: nat): (q: nat)
    requires p < |pat|
    ensures p < q <= |pat|
  {
    if Negated(pat, p + 1) then p + 2 else p + 1
  }

  /** The token at position `p`. A lone backslash at the end stands for itself. */
  function TokenAt(pat: Text, p: nat): Token
    requires p < |pat|
  {
    if pat[p] == ANY then Any
    else if pat[p] == STAR then Star
    else if pat[p] == OPEN then Class(Negated(pat, p + 1), ClassRanges(pat, ClassBody(pat, p)))
    else if pat[p] == ESCAPE && p + 1 < |pat| then Lit(pat[p + 1])
    else Lit(pat[p])
  }

  function TokenEnd(pat: Text, p: nat): (e: nat)
    requires p < |pat|
    ensures p < e <= |pat|
  {
    if pat[p] == OPEN then
      var q := ClassEnd(pat, ClassBody(pat, p));
      if q < |pat| then q + 1 else q
    else if pat[p] == ESCAPE && p + 1 < |pat| then p + 2
    else p + 1
  }

  function Tokens(pat: Text, p: nat): seq<Token>
    requires p <= |pat|
    decreases |pat| - p
  {
    if p == |pat| then [] else [TokenAt(pat, p)] + Tokens(pat, TokenEnd(pat, p))
  }

  // ---------------------------------------------------------------------------
  // Patterns as they are written
  // ---------------------------------------------------------------------------

  /** What can stand between brackets: a character, or a range with its dash. */
  datatype Item = One(c: int) | Span(lo: int, hi: int)

  /** A piece of a pattern. Behind an opening bracket stands a mark: nothing, a caret or an exclamation mark; the
      closing bracket can be missing. */
  datatype Piece =
    | Stretch | AnyOne | Bare(c: int) | Escaped(c: int)
    | Bracket(mark: Text, items: seq<Item>, closed: bool)

  function ItemText(i: Item): Text {
    match i
    case One(c) => [c]
    case Span(lo, hi) => [lo, '-' as int, hi]
  }

  function ItemsText(items: seq<Item>): Text {
    if items == [] then [] else ItemText(items[0]) + ItemsText(items[1..])
  }

  function PieceText(p: Piece): Text {
    match p
    case Stretch => ['*' as int]
    case AnyOne => ['?' as int]
    case Bare(c) => [c]
    case Escaped(c) => ['\\' as int, c]
    case Bracket(mark, items, closed) =>
      ['[' as int] + mark + ItemsText(items) + if closed then [']' as int] else []
  }

  function PiecesText(ps: seq<Piece>): Text {
    if ps == [] then [] else PieceText(ps[0]) + PiecesText(ps[1..])
  }

  /** No item holds the closing bracket, and no character is taken for the start of a range. */
  ghost predicate ItemsOk(items: seq<Item>) {
    items != [] ==>
      && ']' as int !in ItemText(items[0]) && ItemsOk(items[1..])
      && (items[0].One? && |items| > 1 && ItemText(items[1])[0] == '-' as int ==>
            items[1] == One('-' as int) && |items| == 2)
  }

  /** A bare character is not special, but for a backslash at the very end; a bracket without a mark does not start
      with one, and is closed unless it comes last. */
  ghost predicate PieceOk(p: Piece, last: bool) {
    match p
    case Bare(c) => (c == '\\' as int && last) || c !in {'*' as int, '?' as int, '[' as int, '\\' as int}
    case Bracket(mark, items, closed) =>
      && (closed || last) && ItemsOk(items) && mark in {[], ['^' as int], ['!' as int]}
      && (mark == [] && items != [] ==> ItemText(items[0])[0] !in {'^' as int, '!' as int})
    case _ => true
  }

  ghost predicate PiecesOk(ps: seq<Piece>) {
    forall i :: 0 <= i < |ps| ==> PieceOk(ps[i], i == |ps| - 1)
  }

  predicate ItemHas(i: Item, c: int) {
    match i
    case One(d) => c == d
    case Span(lo, hi) => lo <= c <= hi
  }

  /** A token means what the piece is written for. */
  ghost predicate Means(p: Piece, t: Token) {
    match p
    case Stretch => t == Star
    case AnyOne => t != Star && forall c :: Accepts(t, c)
    case Bare(d) => t != Star && forall c :: Accepts(t, c) <==> c == d
    case Escaped(d) => t != Star && forall c :: Accepts(t, c) <==> c == d
    case Bracket(mark, items, _) =>
      && t != Star
      && forall c :: Accepts(t, c) <==> ((exists i :: 0 <= i < |items| && ItemHas(items[i], c)) <==> mark == [])
  }

  lemma SuffixSplit(pat: Text, q: nat, a: Text, b: Text)
    requires q <= |pat| && pat[q..] == a + b
    ensures q + |a| <= |pat| && pat[q + |a|..] == b
    ensures forall k :: 0 <= k < |a| ==> pat[q + k] == a[k]
  {
    var t := pat[q..];
    assert |t| == |a| + |b| && t[|a|..] == b;
    assert forall k :: 0 <= k < |t| ==> pat[q + k] == t[k];
  }

  /** A range is recognised, and nothing else is taken for one. */
  lemma SpanSeen(pat: Text, q: nat, it: Item, tail: Text)
    requires q <= |pat| && pat[q..] == ItemText(it) + tail && (it.Span? ==> it.hi != ']' as int)
    requires it.One? && tail != [] && tail[0] == '-' as int ==> |tail| == 1 || tail[1] == ']' as int
    ensures IsRange(pat, q) <==> it.Span?
  {
    SuffixSplit(pat, q, ItemText(it), tail);
    if it.One? && q + 2 < |pat| {
      assert pat[q + 1..][0] == pat[q + 1] && pat[q + 1..][1] == pat[q + 2];
    }
  }

  lemma NextItem(items: seq<Item>, tail: Text)
    requires ItemsOk(items) && items != [] && (tail != [] ==> tail[0] == ']' as int)
    ensures var rest := ItemsText(items[1..]) + tail;
      && ItemsText(items) + tail == ItemText(items[0]) + rest
      && (items[0].One? && rest != [] && rest[0] == '-' as int ==> |rest| == 1 || rest[1] == ']' as int)
      && (items[0].Span? ==> items[0].hi != ']' as int) && ItemText(items[0])[0] != ']' as int
  {
    if |items| > 1 {
      assert ItemsText(items[1..])[0] == ItemText(items[1])[0];
      if items[0].One? && ItemText(items[1])[0] == '-' as int {
        assert items[1..] == [One('-' as int)];
        assert ItemsText([One('-' as int)]) == ['-' as int] + ItemsText([]);
      }
    }
    if items[0].Span? {
      assert ItemText(items[0])[2] == items[0].hi;
    }
  }

  /** Scanning brackets as written finds their items and where they end. */
  lemma {:induction false} ItemsRead(pat: Text, q: nat, items: seq<Item>, tail: Text)
    requires ItemsOk(items) && q <= |pat| && pat[q..] == ItemsText(items) + tail
    requires tail != [] ==> tail[0] == ']' as int
    ensures ClassEnd(pat, q) + |tail| == |pat|
    ensures forall c :: InClass(ClassRanges(pat, q), c) <==> exists i :: 0 <= i < |items| && ItemHas(items[i], c)
    decreases |items|
  {
    hide IsRange, ItemText, InClass, ItemHas;
    if items == [] {
      NothingListed(pat, q, tail);
    } else {
      var it, rest := items[0], items[1..];
      var next := q + |ItemText(it)|;
      NextItem(items, tail);
      SpanSeen(pat, q, it, ItemsText(rest) + tail);
      SuffixSplit(pat, q, ItemText(it), ItemsText(rest) + tail);
      ItemsRead(pat, next, rest, tail);
      var r := if it.Span? then Range(it.lo, it.hi) else Range(it.c, it.c);
      ItemRead(pat, q, it, r);
      forall c
        ensures InClass(ClassRanges(pat, q), c) <==> exists i :: 0 <= i < |items| && ItemHas(items[i], c)
      {
        InClassCons(r, ClassRanges(pat, next), c);
        RangeHas(it, r, c);
        FirstOrRest(items, c);
      }
    }
  }

  lemma NothingListed(pat: Text, q: nat, tail: Text)
    requires q <= |pat| && pat[q..] == tail && (tail != [] ==> tail[0] == ']' as int)
    ensures ClassEnd(pat, q) == q && ClassRanges(pat, q) == [] && forall c :: !InClass([], c)
  {
    assert tail != [] ==> pat[q] == tail[0];
  }

  lemma RangeHas(it: Item, r: Range, c: int)
    requires r == if it.Span? then Range(it.lo, it.hi) else Range(it.c, it.c)
    ensures r.lo <= c <= r.hi <==> ItemHas(it, c)
  {
  }

  /** The scan takes one item off. */
  lemma ItemRead(pat: Text, q: nat, it: Item, r: Range)
    requires q + |ItemText(it)| <= |pat| && forall k :: 0 <= k < |ItemText(it)| ==> pat[q + k] == ItemText(it)[k]
    requires (IsRange(pat, q) <==> it.Span?) && ItemText(it)[0] != ']' as int
    requires r == if it.Span? then Range(it.lo, it.hi) else Range(it.c, it.c)
    ensures ClassRanges(pat, q) == [r] + ClassRanges(pat, q + |ItemText(it)|)
    ensures ClassEnd(pat, q) == ClassEnd(pat, q + |ItemText(it)|)
  {
    assert pat[q] == ItemText(it)[0];
    if it.Span? {
      assert pat[q + 2] == ItemText(it)[2];
    }
  }

  lemma FirstOrRest(items: seq<Item>, c: int)
    requires items != []
    ensures (exists i :: 0 <= i < |items| && ItemHas(items[i], c))
      <==> ItemHas(items[0], c) || exists i :: 0 <= i < |items[1..]| && ItemHas(items[1..][i], c)
  {
    if i :| 0 < i < |items| && ItemHas(items[i], c) {
      assert items[1..][i - 1] == items[i];
    }
    assert forall i :: 0 <= i < |items[1..]| ==> items[1..][i] == items[i + 1];
  }

  /** A piece is read as one token that means the same. */
  lemma PieceRead(pat: Text, q: nat, p: Piece, tail: Text)
    requires q <= |pat| && pat[q..] == PieceText(p) + tail && PieceOk(p, tail == [])
    ensures q < |pat| && TokenEnd(pat, q) + |tail| == |pat| && Means(p, TokenAt(pat, q))
  {
    SuffixSplit(pat, q, PieceText(p), tail);
    if p.Bracket? {
      BracketRead(pat, q, p, tail);
    } else {
      hide ClassRanges, ClassEnd, ClassBody, Negated, InClass;
      assert pat[q] == PieceText(p)[0];
      assert p.Escaped? ==> pat[q + 1] == PieceText(p)[1];
    }
  }

  lemma BracketRead(pat: Text, q: nat, p: Piece, tail: Text)
    requires q <= |pat| && p.Bracket? && pat[q..] == PieceText(p) + tail && PieceOk(p, tail == [])
    ensures q < |pat| && TokenEnd(pat, q) + |tail| == |pat| && Means(p, TokenAt(pat, q))
  {
    hide *;
    BracketTail(pat, q, p, tail);
    var rest := (if p.closed then [']' as int] else []) + tail;
    var body := q + 1 + |p.mark|;
    ItemsRead(pat, body, p.items, rest);
    BracketMeans(pat, q, p, body, rest, tail);
  }

  /** Behind the bracket and its mark stand the items. */
  lemma BracketTail(pat: Text, q: nat, p: Piece, tail: Text)
    requires q <= |pat| && p.Bracket? && pat[q..] == PieceText(p) + tail && PieceOk(p, tail == [])
    ensures var rest, body := (if p.closed then [']' as int] else []) + tail, q + 1 + |p.mark|;
      && body <= |pat| && pat[body..] == ItemsText(p.items) + rest && ItemsOk(p.items)
      && (rest != [] ==> rest[0] == ']' as int) && pat[q] == '[' as int
      && (Negated(pat, q + 1) <==> p.mark != []) && |p.mark| <= 1 && (p.closed || tail == [])
  {
    hide ItemsOk, Negated, ItemText, ItemsText;
    var start, rest := ['[' as int] + p.mark, (if p.closed then [']' as int] else []) + tail;
    assert PieceText(p) + tail == start + (ItemsText(p.items) + rest);
    SuffixSplit(pat, q, start, ItemsText(p.items) + rest);
    assert pat[q] == start[0];
    assert pat[q + 1..] == p.mark + (ItemsText(p.items) + rest) by {
      SuffixSplit(pat, q, ['[' as int], p.mark + (ItemsText(p.items) + rest));
    }
    MarkSeen(pat, q + 1, p, rest, tail == []);
  }

  lemma BracketMeans(pat: Text, q: nat, p: Piece, body: nat, rest: Text, tail: Text)
    requires p.Bracket? && q < body <= |pat| && body == q + 1 + |p.mark| && pat[q] == '[' as int
    requires rest == (if p.closed then [']' as int] else []) + tail && (p.closed || tail == [])
    requires (Negated(pat, q + 1) <==> p.mark != []) && |p.mark| <= 1 && ClassEnd(pat, body) + |rest| == |pat|
    requires forall c :: InClass(ClassRanges(pat, body), c) <==>
      exists i :: 0 <= i < |p.items| && ItemHas(p.items[i], c)
    ensures TokenEnd(pat, q) + |tail| == |pat| && Means(p, TokenAt(pat, q))
  {
    hide Negated, ClassEnd, ClassRanges, InClass, ItemHas;
    assert ClassBody(pat, q) == body;
  }

  lemma MarkSeen(pat: Text, q: nat, p: Piece, rest: Text, last: bool)
    requires p.Bracket? && PieceOk(p, last) && q <= |pat| && pat[q..] == p.mark + (ItemsText(p.items) + rest)
    requires rest != [] ==> rest[0] == ']' as int
    ensures |p.mark| <= 1 && (Negated(pat, q) <==> p.mark != [])
  {
    assert forall k :: 0 <= k < |pat| - q ==> pat[q + k] == pat[q..][k];
    if p.mark == [] && p.items != [] {
      assert ItemsText(p.items)[0] == ItemText(p.items[0])[0];
    }
  }

  /** A pattern written as pieces is read as tokens, one for each piece, that mean what the pieces are written for. */
  lemma {:induction false} PiecesRead(pat: Text, q: nat, ps: seq<Piece>)
    requires q <= |pat| && pat[q..] == PiecesText(ps) && PiecesOk(ps)
    ensures |Tokens(pat, q)| == |ps| && forall i :: 0 <= i < |ps| ==> Means(ps[i], Tokens(pat, q)[i])
    decreases |ps|
  {
    hide PieceText, PieceOk, Means, TokenAt, TokenEnd;
    if ps != [] {
      var rest := PiecesText(ps[1..]);
      SuffixSplit(pat, q, PieceText(ps[0]), rest);
      NoMorePieces(ps[1..]);
      assert PieceOk(ps[0], 0 == |ps| - 1);
      PieceRead(pat, q, ps[0], rest);
      var next := TokenEnd(pat, q);
      assert next == q + |PieceText(ps[0])|;
      assert PiecesOk(ps[1..]) by {
        forall i | 0 <= i < |ps[1..]|
          ensures PieceOk(ps[1..][i], i == |ps[1..]| - 1)
        {
          assert PieceOk(ps[i + 1], i + 1 == |ps| - 1);
        }
      }
      PiecesRead(pat, next, ps[1..]);
    }
  }

  lemma NoMorePieces(ps: seq<Piece>)
    ensures PiecesText(ps) == [] <==> ps == []
  {
    if ps != [] {
      assert PieceText(ps[0]) != [];
    }
  }

  // ---------------------------------------------------------------------------
  // What the matcher does
  // ---------------------------------------------------------------------------

  /** The four counters of the matcher's loop; `starP` is -1 until a star has been seen. */
  datatype State = State(p: nat, s: nat, starP: int, starS: nat)

  ghost predicate Ok(pat: Text, str: Text, st: State) {
    && st.p <= |pat| && st.s <= |str| && -1 <= st.starP < |pat| && st.starS <= st.s
    && (st.starP >= 0 ==> st.starP < st.p)
  }

  /** One turn of the loop: the next state, or None when the matcher gives up. */
  datatype Turn = GiveUp | Go(next: State)

  function BackUp(st: State): Turn {
    if st.starP >= 0 then Go(State(st.starP + 1, st.starS + 1, st.starP, st.starS + 1)) else GiveUp
  }

  function Step(pat: Text, str: Text, st: State): Turn
    requires st.s < |str|
  {
    var p, s := st.p, st.s;
    if p < |pat| && (pat[p] == ANY || pat[p] == str[s]) then Go(State(p + 1, s + 1, st.starP, st.starS))
    else if p < |pat| && pat[p] == STAR then Go(State(p + 1, s, p, s))
    else if p < |pat| && pat[p] == OPEN then
      if InClass(ClassRanges(pat, ClassBody(pat, p)), str[s]) != Negated(pat, p + 1)
      then Go(State(TokenEnd(pat, p), s + 1, st.starP, st.starS))
      else BackUp(st)
    else if p < |pat| && pat[p] == ESCAPE && p + 1 < |pat| && pat[p + 1] == str[s] then
      Go(State(p + 2, s + 1, st.starP, st.starS))
    else BackUp(st)
  }

  predicate OnlyStars(pat: Text, p: nat)
    requires p <= |pat|
  {
    forall i :: p <= i < |pat| ==> pat[i] == STAR
  }

  /** The verdict from a state on. */
  function Run(pat: Text, str: Text, st: State): bool
    requires Ok(pat, str, st)
    decreases |str| - st.starS, |str| - st.s, |pat| - st.p
  {
    if st.s == |str| then OnlyStars(pat, st.p)
    else
      match Step(pat, str, st)
      case GiveUp => false
      case Go(next) => Run(pat, str, next)
  }

  lemma StarsToEnd(pat: Text, p0: nat, p: nat)
    requires p0 <= p <= |pat| && (forall i :: p0 <= i < p ==> pat[i] == STAR) && (p < |pat| ==> pat[p] != STAR)
    ensures OnlyStars(pat, p0) == (p == |pat|)
  {
  }

  const Start := State(0, 0, -1, 0)

  /** A turn backs up to a later retry, or consumes a character, or reads a star. */
  ghost predicate Advances(str: Text, st: State, next: State) {
    next.starS > st.starS || (next.starS == st.starS && next.s > st.s)
    || (next.starS >= st.starS && next.s == st.s && next.p > st.p)
  }

  lemma RunTurn(pat: Text, str: Text, st: State)
    requires Ok(pat, str, st)
    ensures st.s == |str| ==> Run(pat, str, st) == OnlyStars(pat, st.p)
    ensures st.s < |str| ==>
      match Step(pat, str, st)
      case GiveUp => !Run(pat, str, st)
      case Go(next) => Ok(pat, str, next) && Run(pat, str, next) == Run(pat, str, st) && Advances(str, st, next)
  {
  }

  /** The scan of one class: does `c` fall in it, and where does it end? */
  method ScanClass(pat: Text, p: nat, c: int) returns (negate: bool, matched: bool, q: nat)
    requires p < |pat|
    ensures negate == Negated(pat, p + 1)
    ensures matched == InClass(ClassRanges(pat, ClassBody(pat, p)), c)
    ensures q == ClassEnd(pat, ClassBody(pat, p))
  {
    q := p + 1;
    negate := q < |pat| && (pat[q] == CARET || pat[q] == BANG);
    if negate {
      q := q + 1;
    }
    matched := false;
    ghost var body := ClassBody(pat, p);
    while q < |pat| && pat[q] != CLOSE
      invariant body <= q <= |pat| && ClassEnd(pat, q) == ClassEnd(pat, body)
      invariant InClass(ClassRanges(pat, body), c) == (matched || InClass(ClassRanges(pat, q), c))
    {
      if q + 2 < |pat| && pat[q + 1] == DASH && pat[q + 2] != CLOSE {
        InClassCons(Range(pat[q], pat[q + 2]), ClassRanges(pat, q + 3), c);
        if c >= pat[q] && c <= pat[q + 2] {
          matched := true;
        }
        q := q + 3;
      } else {
        InClassCons(Range(pat[q], pat[q]), ClassRanges(pat, q + 1), c);
        if pat[q] == c {
          matched := true;
        }
        q := q + 1;
      }
    }
  }

  lemma InClassCons(r: Range, rs: seq<Range>, c: int)
    ensures InClass([r] + rs, c) == (r.lo <= c <= r.hi || InClass(rs, c))
  {
    var all := [r] + rs;
    if r.lo <= c <= r.hi {
      assert all[0] == r;
    }
    if InClass(rs, c) {
      var i :| 0 <= i < |rs| && rs[i].lo <= c <= rs[i].hi;
      assert all[i + 1] == rs[i];
    }
  }

  method GlobMatch(pat: Text, str: Text) returns (r: bool)
    ensures r == Run(pat, str, Start)
    ensures AllPlain(str) ==> r == Matches(Tokens(pat, 0), str)
  {
    if AllPlain(str) {
      PlainSubjectAgrees(pat, str);
    }
    hide Matches, Tokens, AllPlain, ClassBody, ClassEnd, Run, Negated, InClass, ClassRanges, OnlyStars;
    var p, s, starP, starS := 0, 0, -1, 0;
    ghost var goal := Run(pat, str, Start);
    while s < |str|
      invariant 0 <= p && 0 <= s && 0 <= starS && -1 <= starP && Ok(pat, str, State(p, s, starP, starS))
      invariant Run(pat, str, State(p, s, starP, starS)) == goal
      decreases |str| - starS, |str| - s, |pat| - p
    {
      ghost var turn := Step(pat, str, State(p, s, starP, starS));
      RunTurn(pat, str, State(p, s, starP, starS));
      if p < |pat| && (pat[p] == ANY || pat[p] == str[s]) {
        p, s := p + 1, s + 1;
      } else if p < |pat| && pat[p] == STAR {
        starP, starS, p := p, s, p + 1;
      } else if p < |pat| && pat[p] == OPEN {
        var negate, matched, q := ScanClass(pat, p, str[s]);
        if matched != negate {
          p, s := if q < |pat| then q + 1 else q, s + 1;
        } else if starP >= 0 {
          starS := starS + 1;
          p, s := starP + 1, starS;
        } else {
          return false;
        }
      } else if p < |pat| && pat[p] == ESCAPE && p + 1 < |pat| && pat[p + 1] == str[s] {
        p, s := p + 2, s + 1;
      } else if starP >= 0 {
        starS := starS + 1;
        p, s := starP + 1, starS;
      } else {
        return false;
      }
      assert turn == Go(State(p, s, starP, starS));
    }
    RunTurn(pat, str, State(p, s, starP, starS));
    ghost var p0 := p;
    while p < |pat| && pat[p] == STAR
      invariant p0 <= p <= |pat| && forall i :: p0 <= i < p ==> pat[i] == STAR
    {
      p := p + 1;
    }
    StarsToEnd(pat, p0, p);
    return p == |pat|;
  }

  // ---------------------------------------------------------------------------
  // The matcher decides the meaning, for subjects without '*', '[' and '\'
  // ---------------------------------------------------------------------------

  predicate Plain(c: int) {
    c != STAR && c != OPEN && c != ESCAPE
  }

  predicate AllPlain(w: Text) {
    forall i :: 0 <= i < |w| ==> Plain(w[i])
  }

  /** `ts` has no star and accepts the characters of `w` one by one. */
  predicate Aligned(ts: seq<Token>, w: Text) {
    |ts| == |w| && forall i :: 0 <= i < |ts| ==> Accepts(ts[i], w[i])
  }

  ghost predicate Starless(ts: seq<Token>) {
    forall i :: 0 <= i < |ts| ==> !ts[i].Star?
  }

  /** Tokens that have no star consume exactly one character each. */
  lemma {:induction false} StarlessPrefix(mid: seq<Token>, ts: seq<Token>, w: Text)
    requires Starless(mid)
    ensures Matches(mid + ts, w) <==>
      |mid| <= |w| && Aligned(mid, w[..|mid|]) && Matches(ts, w[|mid|..])
  {
    if mid == [] {
      assert mid + ts == ts && w[0..] == w;
    } else {
      assert (mid + ts)[1..] == mid[1..] + ts;
      if w != [] {
        StarlessPrefix(mid[1..], ts, w[1..]);
        if |mid| <= |w| {
          assert w[1..][|mid| - 1..] == w[|mid|..];
          assert w[1..][..|mid| - 1] == w[..|mid|][1..];
          AlignedCons(mid, w[..|mid|]);
        }
      }
    }
  }

  lemma AlignedCons(ts: seq<Token>, w: Text)
    requires ts != [] && w != []
    ensures Aligned(ts, w) <==> Accepts(ts[0], w[0]) && Aligned(ts[1..], w[1..])
  {
    if Accepts(ts[0], w[0]) && Aligned(ts[1..], w[1..]) {
      forall i | 0 <= i < |ts| ensures Accepts(ts[i], w[i]) {
        assert i > 0 ==> ts[i] == ts[1..][i - 1] && w[i] == w[1..][i - 1];
      }
    }
  }

  /** A star matches when the rest matches some suffix. */
  lemma {:induction false} StarSkips(ts: seq<Token>, w: Text, k: nat)
    requires k <= |w| && Matches([Star] + ts, w[k..])
    ensures Matches([Star] + ts, w)
  {
    if k == 0 {
      assert w[0..] == w;
    } else {
      assert w[1..][k - 1..] == w[k..];
      StarSkips(ts, w[1..], k - 1);
    }
  }

  lemma {:induction false} StarChooses(ts: seq<Token>, w: Text) returns (k: nat)
    requires Matches([Star] + ts, w)
    ensures k <= |w| && Matches(ts, w[k..])
  {
    assert ([Star] + ts)[1..] == ts;
    if Matches(ts, w) {
      k := 0;
      assert w[0..] == w;
    } else {
      var j := StarChooses(ts, w[1..]);
      k := j + 1;
      assert w[1..][j..] == w[k..];
    }
  }

  lemma StarTries(ts: seq<Token>, w: Text)
    ensures Matches([Star] + ts, w) == (Matches(ts, w) || (w != [] && Matches([Star] + ts, w[1..])))
  {
    assert ([Star] + ts)[1..] == ts;
  }

  /** What is known at the loop head: `mid`, the tokens since the latest star, is aligned with the text since it. */
  ghost predicate Invariant(pat: Text, str: Text, st: State, mid: seq<Token>) {
    && Ok(pat, str, st)
    && (st.starP >= 0 ==>
          && pat[st.starP] == STAR && Starless(mid)
          && Tokens(pat, st.starP + 1) == mid + Tokens(pat, st.p)
          && Aligned(mid, str[st.starS..st.s]))
  }

  /** What the matcher has left to decide. */
  ghost function Pending(pat: Text, str: Text, st: State): bool
    requires Ok(pat, str, st)
  {
    if st.starP < 0 then Matches(Tokens(pat, st.p), str[st.s..])
    else Matches([Star] + Tokens(pat, st.starP + 1), str[st.starS..])
  }

  /** With a star seen, the current attempt succeeds exactly when the star matches nothing more. */
  lemma AttemptIsZeroStar(pat: Text, str: Text, st: State, mid: seq<Token>)
    requires Invariant(pat, str, st, mid) && st.starP >= 0
    ensures Matches(Tokens(pat, st.starP + 1), str[st.starS..]) == Matches(Tokens(pat, st.p), str[st.s..])
  {
    var w := str[st.starS..];
    StarlessPrefix(mid, Tokens(pat, st.p), w);
    assert w[..|mid|] == str[st.starS..st.s] && w[|mid|..] == str[st.s..];
  }

  /** Accepting one character. */
  lemma AdvanceStep(pat: Text, str: Text, st: State, mid: seq<Token>) returns (mid': seq<Token>)
    requires Invariant(pat, str, st, mid) && st.p < |pat| && st.s < |str|
    requires Accepts(TokenAt(pat, st.p), str[st.s])
    ensures var next := State(TokenEnd(pat, st.p), st.s + 1, st.starP, st.starS);
      Invariant(pat, str, next, mid') && Pending(pat, str, next) == Pending(pat, str, st)
  {
    var t := TokenAt(pat, st.p);
    mid' := mid + [t];
    var rest := Tokens(pat, TokenEnd(pat, st.p));
    assert Tokens(pat, st.p) == [t] + rest;
    if st.starP >= 0 {
      assert mid + ([t] + rest) == mid' + rest;
      var w, w' := str[st.starS..st.s], str[st.starS..st.s + 1];
      forall i | 0 <= i < |mid'| ensures Accepts(mid'[i], w'[i]) {
        assert i < |mid| ==> w'[i] == w[i];
      }
    } else {
      assert str[st.s..][1..] == str[st.s + 1..] && ([t] + rest)[1..] == rest;
    }
  }

  /** Whatever an earlier star could still match, a later one absorbs. */
  lemma StarAbsorbs(mid: seq<Token>, rest: seq<Token>, w: Text)
    requires Starless(mid) && |mid| <= |w| && Aligned(mid, w[..|mid|])
    ensures Matches([Star] + (mid + ([Star] + rest)), w) <==> Matches([Star] + rest, w[|mid|..])
  {
    hide Matches, Starless, Aligned;
    var ts := [Star] + rest;
    StarTries(mid + ts, w);
    StarlessPrefix(mid, ts, w);
    if Matches([Star] + (mid + ts), w) {
      var k := StarChooses(mid + ts, w);
      StarlessPrefix(mid, ts, w[k..]);
      assert w[k..][|mid|..] == w[|mid|..][k..];
      StarSkips(rest, w[|mid|..], k);
    }
  }

  lemma StarTokens(pat: Text, p: nat)
    requires p < |pat| && pat[p] == STAR
    ensures Tokens(pat, p) == [Star] + Tokens(pat, p + 1)
  {
  }

  /** A new star replaces the old one. */
  lemma StarStep(pat: Text, str: Text, st: State, mid: seq<Token>)
    requires Invariant(pat, str, st, mid) && st.p < |pat| && pat[st.p] == STAR
    ensures var next := State(st.p + 1, st.s, st.p, st.s);
      Invariant(pat, str, next, []) && Pending(pat, str, next) == Pending(pat, str, st)
  {
    hide Matches, Tokens, Starless, Accepts;
    StarTokens(pat, st.p);
    NoTokens(str, st.s);
    var rest := Tokens(pat, st.p + 1);
    assert [] + rest == rest;
    if st.starP >= 0 {
      var w := str[st.starS..];
      assert w[..|mid|] == str[st.starS..st.s] && w[|mid|..] == str[st.s..];
      StarAbsorbs(mid, rest, w);
    }
  }

  lemma NoTokens(str: Text, s: nat)
    requires s <= |str|
    ensures Starless([]) && Aligned([], str[s..s])
  {
  }

  /** When the current attempt fails, the star takes one more character. */
  lemma BackUpStep(pat: Text, str: Text, st: State, mid: seq<Token>)
    requires Invariant(pat, str, st, mid) && st.starP >= 0 && st.s < |str|
    requires !Matches(Tokens(pat, st.p), str[st.s..])
    ensures var next := State(st.starP + 1, st.starS + 1, st.starP, st.starS + 1);
      Invariant(pat, str, next, []) && Pending(pat, str, next) == Pending(pat, str, st)
  {
    AttemptIsZeroStar(pat, str, st, mid);
    var ts := Tokens(pat, st.starP + 1);
    StarTries(ts, str[st.starS..]);
    assert str[st.starS..][1..] == str[st.starS + 1..];
    assert [] + ts == ts;
  }

  /** At the end of the text only stars may be left over, and no earlier choice can do better. */
  lemma EndStep(pat: Text, str: Text, st: State, mid: seq<Token>)
    requires Invariant(pat, str, st, mid) && st.s == |str|
    ensures Pending(pat, str, st) == OnlyStars(pat, st.p)
  {
    LeftoverStars(pat, st.p);
    assert str[st.s..] == [];
    if st.starP >= 0 {
      AttemptIsZeroStar(pat, str, st, mid);
      var ts, w := Tokens(pat, st.starP + 1), str[st.starS..];
      StarTries(ts, w);
      if Matches([Star] + ts, w) {
        var k := StarChooses(ts, w);
        StarlessPrefix(mid, Tokens(pat, st.p), w[k..]);
        assert k == 0 && w[0..] == w;
      }
    }
  }

  lemma {:induction false} LeftoverStars(pat: Text, p: nat)
    requires p <= |pat|
    ensures Matches(Tokens(pat, p), []) == OnlyStars(pat, p)
    decreases |pat| - p
  {
    if p < |pat| {
      FirstOnNothing(TokenAt(pat, p), Tokens(pat, TokenEnd(pat, p)));
      if pat[p] == STAR {
        LeftoverStars(pat, p + 1);
      }
      hide Matches;
    }
  }

  lemma FirstOnNothing(t: Token, ts: seq<Token>)
    ensures Matches([t] + ts, []) == (t.Star? && Matches(ts, []))
  {
    assert ([t] + ts)[1..] == ts;
  }

  /** In a plain subject the matcher's test agrees with the token at hand. */
  lemma StepReadsToken(pat: Text, str: Text, st: State)
    requires Ok(pat, str, st) && st.s < |str| && Plain(str[st.s])
    ensures Step(pat, str, st) ==
      if st.p < |pat| && pat[st.p] == STAR then Go(State(st.p + 1, st.s, st.p, st.s))
      else if st.p < |pat| && Accepts(TokenAt(pat, st.p), str[st.s])
      then Go(State(TokenEnd(pat, st.p), st.s + 1, st.starP, st.starS))
      else BackUp(st)
  {
  }

  /** The matcher's verdict from any state is the meaning of what is pending there. */
  lemma {:induction false} RunDecides(pat: Text, str: Text, st: State, mid: seq<Token>)
    requires Invariant(pat, str, st, mid) && AllPlain(str)
    ensures Run(pat, str, st) == Pending(pat, str, st)
    decreases |str| - st.starS, |str| - st.s, |pat| - st.p
  {
    if st.s == |str| {
      EndStep(pat, str, st, mid);
    } else {
      StepReadsToken(pat, str, st);
      if st.p < |pat| && pat[st.p] == STAR {
        StarStep(pat, str, st, mid);
        RunDecides(pat, str, State(st.p + 1, st.s, st.p, st.s), []);
      } else if st.p < |pat| && Accepts(TokenAt(pat, st.p), str[st.s]) {
        var mid' := AdvanceStep(pat, str, st, mid);
        RunDecides(pat, str, State(TokenEnd(pat, st.p), st.s + 1, st.starP, st.starS), mid');
      } else {
        assert !Matches(Tokens(pat, st.p), str[st.s..]);
        if st.starP >= 0 {
          BackUpStep(pat, str, st, mid);
          RunDecides(pat, str, State(st.starP + 1, st.starS + 1, st.starP, st.starS + 1), []);
        }
      }
    }
  }

  /** The verdict on a whole subject. */
  ghost predicate Agrees(pat: Text, str: Text) {
    Run(pat, str, Start) == Matches(Tokens(pat, 0), str)
  }

  lemma PlainSubjectAgrees(pat: Text, str: Text)
    requires AllPlain(str)
    ensures Agrees(pat, str)
  {
    RunDecides(pat, str, Start, []);
    assert str[0..] == str;
  }

  // ---------------------------------------------------------------------------
  // Every other subject has a pattern on which the matcher and the meaning differ
  // ---------------------------------------------------------------------------

  function Anys(m: nat): (w: Text)
    ensures |w| == m && forall i :: 0 <= i < m ==> w[i] == ANY
  {
    seq(m, _ => ANY)
  }

  ghost predicate AnysFrom(pat: Text, p: nat) {
    p <= |pat| && forall i :: p <= i < |pat| ==> pat[i] == ANY
  }

  /** A tail of question marks matches exactly the texts of its length, and the matcher sees it so. */
  lemma {:induction false} AnysCount(pat: Text, str: Text, p: nat, s: nat)
    requires AnysFrom(pat, p) && s <= |str|
    ensures Run(pat, str, State(p, s, -1, 0)) == (|pat| - p == |str| - s)
    ensures Matches(Tokens(pat, p), str[s..]) == (|pat| - p == |str| - s)
    decreases |pat| - p
  {
    if p < |pat| {
      assert Tokens(pat, p)[1..] == Tokens(pat, p + 1);
      if s < |str| {
        AnysCount(pat, str, p + 1, s + 1);
        assert str[s..][1..] == str[s + 1..];
      }
    }
  }

  /** A pattern that repeats a plain stretch of the subject passes over it, in both readings. */
  lemma {:induction false} CommonPrefix(pat: Text, str: Text, i: nat, n: nat)
    requires i <= n <= |pat| && n <= |str|
    requires forall j :: 0 <= j < n ==> pat[j] == str[j] && Plain(str[j])
    ensures Run(pat, str, State(i, i, -1, 0)) == Run(pat, str, State(n, n, -1, 0))
    ensures Matches(Tokens(pat, i), str[i..]) == Matches(Tokens(pat, n), str[n..])
    decreases n - i
  {
    if i < n {
      CommonPrefix(pat, str, i + 1, n);
      assert Tokens(pat, i)[1..] == Tokens(pat, i + 1);
      assert str[i..][1..] == str[i + 1..];
    }
  }

  /** The pattern that tells the two readings apart on a subject whose first special character is at `i`. */
  ghost function Distinguisher(str: Text, i: nat): Text
    requires i < |str|
  {
    var m := |str| - i - 1;
    if str[i] == STAR then str[..i] + [STAR] + Anys(m + 1)
    else if str[i] == ESCAPE && m == 0 then str[..i] + [ESCAPE, ESCAPE]
    else str[..i] + [str[i]] + Anys(m)
  }

  lemma {:induction false} AnysRanges(pat: Text, q: nat)
    requires AnysFrom(pat, q)
    ensures ClassEnd(pat, q) == |pat| && !InClass(ClassRanges(pat, q), OPEN)
    decreases |pat| - q
  {
    if q < |pat| {
      AnysRanges(pat, q + 1);
      InClassCons(Range(ANY, ANY), ClassRanges(pat, q + 1), OPEN);
    }
  }

  lemma SpecialSubjectDisagrees(str: Text, i: nat)
    requires i < |str| && !Plain(str[i]) && forall j :: 0 <= j < i ==> Plain(str[j])
    ensures !Agrees(Distinguisher(str, i), str)
  {
    var pat, m := Distinguisher(str, i), |str| - i - 1;
    CommonPrefix(pat, str, 0, i);
    assert str[0..] == str;
    assert Tokens(pat, i) == [TokenAt(pat, i)] + Tokens(pat, TokenEnd(pat, i));
    assert str[i..][1..] == str[i + 1..];
    assert Step(pat, str, State(i, i, -1, 0)) == Go(State(i + 1, i + 1, -1, 0));
    if str[i] == STAR {
      AnysCount(pat, str, i + 1, i + 1);
      AnysCount(pat, str, i + 1, i);
      assert Tokens(pat, i)[1..] == Tokens(pat, i + 1);
    } else if str[i] == ESCAPE && m == 0 {
      assert str[i + 1..] == [] && Tokens(pat, i + 2) == [];
      assert Tokens(pat, i) == [Lit(ESCAPE)];
    } else {
      AnysCount(pat, str, i + 1, i + 1);
      if str[i] == OPEN {
        AnysRanges(pat, i + 1);
      }
    }
  }

  lemma {:induction false} FirstSpecial(str: Text) returns (i: nat)
    requires !AllPlain(str)
    ensures i < |str| && !Plain(str[i]) && forall j :: 0 <= j < i ==> Plain(str[j])
  {
    if !Plain(str[0]) {
      i := 0;
    } else {
      var k := FirstSpecial(str[1..]);
      i := k + 1;
    }
  }

  /** On a subject, the matcher agrees with the meaning of every pattern exactly when the subject has no '*', '[' or
      '\'. */
  lemma GlobExact(str: Text)
    ensures (forall pat: Text :: Agrees(pat, str)) <==> AllPlain(str)
  {
    if AllPlain(str) {
      forall pat: Text ensures Agrees(pat, str) {
        PlainSubjectAgrees(pat, str);
      }
    } else {
      var i := FirstSpecial(str);
      SpecialSubjectDisagrees(str, i);
    }
  }
}
