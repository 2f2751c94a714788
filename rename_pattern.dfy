/** The rename-pattern token of FileMetadata, `%N` or `%N:MASK`, and
    FormatRenameNumber. A pattern is read the way Regex.Matches reads it with
    the token expression: left to right, each search starting where the last
    match ended, or one character further on when nothing matched. */
module RenamePattern {
  import opened Common
  import opened Numbers

  /** The two groups of one match: `num` (one or more digits) and `format`
      (a mask of '0' and '#', empty when the optional part is absent). */
  datatype RenameToken = RenameToken(Num: string, Format: string)

  predicate WellFormed(t: RenameToken) {
    |t.Num| > 0 && AllDigits(t.Num) && IsMask(t.Format)
  }

  /** The text a token occupies in the pattern. */
  function TokenText(t: RenameToken): string {
    "%" + t.Num + (if t.Format == "" then "" else ":" + t.Format)
  }

  /** The two character classes the token expression repeats. */
  datatype CharClass = Digit | MaskChar

  predicate InClass(c: char, p: CharClass) {
    match p
    case Digit => IsDigit(c)
    case MaskChar => IsMaskChar(c)
  }

  /** Length of the longest run of characters of class p from position i:
      the run stops at the end of s or at the first character outside p. */
  function RunLength(s: string, i: nat, p: CharClass): (n: nat)
    requires i <= |s|
    ensures i + n <= |s|
    ensures i + n == |s| || !InClass(s[i + n], p)
    decreases |s| - i
  {
    if i < |s| && InClass(s[i], p) then 1 + RunLength(s, i + 1, p) else 0
  }

  /** Every character of the run belongs to p. */
  lemma {:induction false} RunLengthClass(s: string, i: nat, p: CharClass)
    requires i <= |s|
    ensures forall j :: i <= j < i + RunLength(s, i, p) ==> InClass(s[j], p)
    decreases |s| - i
  {
    if i < |s| && InClass(s[i], p) {
      RunLengthClass(s, i + 1, p);
    }
  }

  datatype TokenMatch = TokenMatch(Token: RenameToken, End: nat)

  /** No match can be longer: the digits stop at a non-digit, and the mask,
      when present, stops at a non-mask character; when absent, no ':' with a
      mask character after it follows the digits. */
  predicate Maximal(s: string, i: nat, m: TokenMatch)
    requires i + 1 + |m.Token.Num| <= |s| && m.End <= |s|
  {
    var j := i + 1 + |m.Token.Num|;
    && (j < |s| ==> !IsDigit(s[j]))
    && (m.Token.Format == "" ==> !(j + 1 < |s| && s[j] == ':' && IsMaskChar(s[j + 1])))
    && (m.Token.Format != "" && m.End < |s| ==> !IsMaskChar(s[m.End]))
  }

  /** The length of the mask that follows digits ending at j: the run of
      '0'/'#' after a ':', or 0 when no ':' with a mask character follows. */
  function MaskLength(s: string, j: nat): (f: nat)
    requires j <= |s|
    ensures f > 0 ==> j + 1 + f <= |s| && s[j] == ':'
    ensures f > 0 && j + 1 + f < |s| ==> !IsMaskChar(s[j + 1 + f])
    ensures f == 0 ==> !(j + 1 < |s| && s[j] == ':' && IsMaskChar(s[j + 1]))
  {
    if j + 1 < |s| && s[j] == ':' && IsMaskChar(s[j + 1]) then RunLength(s, j + 1, MaskChar) else 0
  }

  /** Every character of a mask found at j is a mask character. */
  lemma MaskLengthClass(s: string, j: nat)
    requires j <= |s|
    ensures var f := MaskLength(s, j);
      f > 0 ==> forall k :: j + 1 <= k < j + 1 + f ==> IsMaskChar(s[k])
  {
    if j + 1 < |s| && s[j] == ':' && IsMaskChar(s[j + 1]) {
      RunLengthClass(s, j + 1, MaskChar);
    }
  }

  /** The token read from a '%', the digits up to j and a mask of length f. */
  function TokenOf(s: string, i: nat, j: nat, f: nat): RenameToken
    requires i < j <= |s| && (f > 0 ==> j + 1 + f <= |s|)
  {
    RenameToken(s[i + 1..j], if f > 0 then s[j + 1..j + 1 + f] else "")
  }

  function TokenEnd(j: nat, f: nat): nat {
    if f > 0 then j + 1 + f else j
  }

  /** The text from the '%' to the end of the mask is the token's text, and
      the groups are well formed. */
  lemma TokenOfFacts(s: string, i: nat, j: nat, f: nat)
    requires i < |s| && s[i] == '%'
    requires i + 1 < j <= |s| && forall k :: i + 1 <= k < j ==> IsDigit(s[k])
    requires f > 0 ==> j + 1 + f <= |s| && s[j] == ':'
    requires f > 0 ==> forall k :: j + 1 <= k < j + 1 + f ==> IsMaskChar(s[k])
    ensures WellFormed(TokenOf(s, i, j, f))
    ensures s[i..TokenEnd(j, f)] == TokenText(TokenOf(s, i, j, f))
  {
    var t := TokenOf(s, i, j, f);
    assert AllDigits(t.Num) by {
      forall k | 0 <= k < |t.Num| ensures IsDigit(t.Num[k]) {
        assert t.Num[k] == s[i + 1 + k];
      }
    }
    if f > 0 {
      assert IsMask(t.Format) by {
        forall k | 0 <= k < |t.Format| ensures IsMaskChar(t.Format[k]) {
          assert t.Format[k] == s[j + 1 + k];
        }
      }
      assert s[i..TokenEnd(j, f)] == [s[i]] + s[i + 1..j] + ([s[j]] + s[j + 1..j + 1 + f]);
    } else {
      assert s[i..TokenEnd(j, f)] == [s[i]] + s[i + 1..j];
    }
  }

  /** m is a match of the token expression starting at i: it ends inside
      s, its groups are well formed, it spells out s[i..End] and it cannot
      be extended. */
  predicate MatchesAt(s: string, i: nat, m: TokenMatch) {
    && i < m.End <= |s| && i + 1 + |m.Token.Num| <= |s|
    && WellFormed(m.Token)
    && s[i..m.End] == TokenText(m.Token)
    && Maximal(s, i, m)
  }

  /** The match built from the digit run and the mask after a '%' at i. */
  lemma MatchFacts(s: string, i: nat)
    requires i + 1 < |s| && s[i] == '%' && IsDigit(s[i + 1])
    ensures var j := i + 1 + RunLength(s, i + 1, Digit);
      var f := MaskLength(s, j);
      && i + 1 < j <= |s| && (f > 0 ==> j + 1 + f <= |s|)
      && MatchesAt(s, i, TokenMatch(TokenOf(s, i, j, f), TokenEnd(j, f)))
  {
    var j := i + 1 + RunLength(s, i + 1, Digit);
    var f := MaskLength(s, j);
    RunLengthClass(s, i + 1, Digit);
    MaskLengthClass(s, j);
    TokenOfFacts(s, i, j, f);
    assert |TokenOf(s, i, j, f).Num| == j - i - 1;
  }

  /** The match of `%(?<num>\d+)(?:\:(?<format>[0#]+))?` that starts exactly
      at position i. Both repetitions are greedy and nothing after them can
      fail, so the match is the longest one. */
  function MatchAt(s: string, i: nat): (m: Option<TokenMatch>)
    requires i <= |s|
    ensures m.Some? <==> i + 1 < |s| && s[i] == '%' && IsDigit(s[i + 1])
    ensures m.Some? ==> i < m.value.End <= |s|
  {
    if i + 1 < |s| && s[i] == '%' && IsDigit(s[i + 1]) then
      var j := i + 1 + RunLength(s, i + 1, Digit);
      var f := MaskLength(s, j);
      Some(TokenMatch(TokenOf(s, i, j, f), TokenEnd(j, f)))
    else
      None
  }

  /** A match found at i spells out s[i..End] and cannot be extended. */
  lemma MatchAtFacts(s: string, i: nat)
    requires i <= |s| && MatchAt(s, i).Some?
    ensures MatchesAt(s, i, MatchAt(s, i).value)
  {
    MatchFacts(s, i);
  }

  /** A pattern read as literal characters and tokens. */
  datatype Piece = Literal(Char: char) | Token(Token: RenameToken)

  function PieceText(p: Piece): string {
    match p
    case Literal(c) => [c]
    case Token(t) => TokenText(t)
  }

  /** The text the pieces stand for. */
  function Render(ps: seq<Piece>): string {
    if ps == [] then "" else PieceText(ps[0]) + Render(ps[1..])
  }

  function TokenizeFrom(s: string, i: nat): (ps: seq<Piece>)
    requires i <= |s|
    ensures forall k :: 0 <= k < |ps| && ps[k].Token? ==> WellFormed(ps[k].Token)
    decreases |s| - i
  {
    if i == |s| then []
    else match MatchAt(s, i)
      case Some(m) => MatchAtFacts(s, i); [Token(m.Token)] + TokenizeFrom(s, m.End)
      case None => [Literal(s[i])] + TokenizeFrom(s, i + 1)
  }

  /** The successive matches of the token expression in a pattern, with the
      text between them kept as literal characters. */
  function Tokenize(s: string): (ps: seq<Piece>)
    ensures forall k :: 0 <= k < |ps| && ps[k].Token? ==> WellFormed(ps[k].Token)
  {
    TokenizeFrom(s, 0)
  }

  lemma RenderStep(s: string, i: nat, next: nat, text: string)
    requires i < |s|
    requires MatchAt(s, i).Some? ==> next == MatchAt(s, i).value.End && text == TokenText(MatchAt(s, i).value.Token)
    requires MatchAt(s, i).None? ==> next == i + 1 && text == [s[i]]
    ensures i < next <= |s| && s[i..next] == text
    ensures Render(TokenizeFrom(s, i)) == text + Render(TokenizeFrom(s, next))
  {
    var ps := TokenizeFrom(s, i);
    assert ps[1..] == TokenizeFrom(s, next);
    if MatchAt(s, i).Some? {
      MatchAtFacts(s, i);
    }
  }

  lemma SplitSuffix(s: string, i: nat, next: nat)
    requires i <= next <= |s|
    ensures s[i..] == s[i..next] + s[next..]
  {
  }

  lemma {:induction false} RenderTokenizeFrom(s: string, i: nat)
    requires i <= |s|
    ensures Render(TokenizeFrom(s, i)) == s[i..]
    decreases |s| - i
  {
    if i < |s| {
      var m := MatchAt(s, i);
      var next := if m.Some? then m.value.End else i + 1;
      var text := if m.Some? then TokenText(m.value.Token) else [s[i]];
      RenderStep(s, i, next, text);
      RenderTokenizeFrom(s, next);
      SplitSuffix(s, i, next);
    }
  }

  /** Reading a pattern into tokens loses nothing: rendering the pieces gives
      the pattern back. */
  lemma TokenizeRoundTrip(s: string)
    ensures Render(Tokenize(s)) == s
  {
    RenderTokenizeFrom(s, 0);
  }

  /** The piece the reader produces at offset o of s: the match there, or
      the character there when no match starts at o. */
  function ReadAt(s: string, o: nat): (p: Piece)
    requires o < |s|
    ensures p.Token? <==> MatchAt(s, o).Some?
    ensures p.Token? ==> p.Token == MatchAt(s, o).value.Token
    ensures p.Literal? ==> p.Char == s[o]
  {
    match MatchAt(s, o)
    case Some(m) => Token(m.Token)
    case None => Literal(s[o])
  }

  /** Where the reader goes on after the piece read at offset o. */
  function NextOffset(s: string, o: nat): (n: nat)
    requires o < |s|
    ensures o < n <= |s|
    ensures n == o + |PieceText(ReadAt(s, o))|
  {
    match MatchAt(s, o)
    case Some(m) => MatchAtFacts(s, o); m.End
    case None => o + 1
  }

  /** ps is what read yields from offset i up to offset end, each piece
      starting where the previous one's text ends. */
  predicate Chain(read: nat -> Piece, i: nat, end: nat, ps: seq<Piece>)
    decreases |ps|
  {
    && i <= end
    && if ps == [] then i == end
       else
         && 0 < |PieceText(ps[0])|
         && ps[0] == read(i)
         && Chain(read, i + |PieceText(ps[0])|, end, ps[1..])
  }

  /** A non-empty prefix renders as its first piece followed by the rest. */
  lemma RenderPrefixTail(ps: seq<Piece>, k: nat)
    requires 0 < k <= |ps|
    ensures |Render(ps[..k])| == |PieceText(ps[0])| + |Render(ps[1..][..k - 1])|
  {
    assert ps[..k][0] == ps[0] && ps[..k][1..] == ps[1..][..k - 1];
  }

  /** The piece at index k of a chain from i is the one read at offset
      i + |Render(ps[..k])|, which lies before the chain's end. */
  lemma {:induction false} ChainAt(read: nat -> Piece, i: nat, end: nat, ps: seq<Piece>, k: nat)
    requires Chain(read, i, end, ps) && k < |ps|
    ensures i + |Render(ps[..k])| < end
    ensures ps[k] == read(i + |Render(ps[..k])|)
    decreases k
  {
    if k == 0 {
      assert ps[..0] == [];
      assert i + |PieceText(ps[0])| <= end;
    } else {
      ChainAt(read, i + |PieceText(ps[0])|, end, ps[1..], k - 1);
      RenderPrefixTail(ps, k);
    }
  }

  /** The reader of s, extended past the end by a placeholder. */
  function Reader(s: string): nat -> Piece {
    (o: nat) => if o < |s| then ReadAt(s, o) else Literal('%')
  }

  /** Inside s the reader is ReadAt. */
  lemma ReaderAt(s: string, o: nat)
    requires o < |s|
    ensures Reader(s)(o) == ReadAt(s, o)
  {
  }

  /** A piece read at i, followed by a chain from where its text ends, is
      a chain from i. */
  lemma ChainCons(read: nat -> Piece, i: nat, next: nat, end: nat, head: Piece, rest: seq<Piece>)
    requires i < next == i + |PieceText(head)| && head == read(i)
    requires Chain(read, next, end, rest)
    ensures Chain(read, i, end, [head] + rest)
  {
    assert ([head] + rest)[1..] == rest;
  }

  /** Reading s from i yields the piece read at i, then the reading from
      where that piece ends. */
  lemma TokenizeFromHead(s: string, i: nat)
    requires i < |s|
    ensures TokenizeFrom(s, i) == [ReadAt(s, i)] + TokenizeFrom(s, NextOffset(s, i))
  {
  }

  /** The pieces of s from i are the chain of what s reads from i to |s|. */
  lemma {:induction false} TokenizeFromChain(s: string, i: nat)
    requires i <= |s|
    ensures Chain(Reader(s), i, |s|, TokenizeFrom(s, i))
    decreases |s| - i
  {
    if i < |s| {
      var next := NextOffset(s, i);
      TokenizeFromHead(s, i);
      TokenizeFromChain(s, next);
      ChainCons(Reader(s), i, next, |s|, ReadAt(s, i), TokenizeFrom(s, next));
    }
  }

  /** Every piece of a tokenized pattern is what the token expression reads
      at that piece's offset: tokens are the matches, literals the
      characters where no match starts. */
  lemma {:induction false} TokenizeMatches(s: string, k: nat)
    requires k < |Tokenize(s)|
    ensures |Render(Tokenize(s)[..k])| < |s|
    ensures Tokenize(s)[k] == ReadAt(s, |Render(Tokenize(s)[..k])|)
  {
    var ps := Tokenize(s);
    TokenizeFromChain(s, 0);
    ChainAt(Reader(s), 0, |s|, ps, k);
    ReaderAt(s, |Render(ps[..k])|);
  }

  /** FormatRenameNumber(match, value). The match's group collection always
      contains the `format` group, so the value is always formatted with that
      group's text; when the optional part did not match that text is empty,
      and the empty format is the general one, plain decimal. */
  function FormatRenameNumber(t: RenameToken, value: int): (r: string)
    requires WellFormed(t)
    ensures t.Format == "" ==> r == Decimal(value)
    ensures value != 0 || t.Format == "" || MinDigits(t.Format) > 0 ==> ParseInt(r) == Some(value)
    ensures value >= 0 ==> |r| >= MinDigits(t.Format)
  {
    assert value != 0 || t.Format == "" || MinDigits(t.Format) > 0 ==>
      ParseInt(FormatNumber(value, t.Format)) == Some(value) by {
      if value != 0 || t.Format == "" || MinDigits(t.Format) > 0 {
        FormatRoundTrip(value, t.Format);
      }
    }
    FormatNumber(value, t.Format)
  }

  /** In "S%2:00E" the token at position 1 is number 2 with the mask "00",
      and it ends just before the 'E'. */
  lemma MaskedTokenExample()
    ensures MatchAt("S%2:00E", 1) == Some(TokenMatch(RenameToken("2", "00"), 6))
  {
    var s := "S%2:00E";
    assert RunLength(s, 2, Digit) == 1 by { assert RunLength(s, 3, Digit) == 0; }
    assert RunLength(s, 4, MaskChar) == 2 by {
      assert RunLength(s, 6, MaskChar) == 0;
      assert RunLength(s, 5, MaskChar) == 1;
    }
    assert s[2..3] == "2" && s[4..6] == "00";
  }

  /** "%4 " reads as one token without a mask and one literal space. */
  lemma PlainTokenExample()
    ensures Tokenize("%4 ") == [Token(RenameToken("4", "")), Literal(' ')]
  {
    var s := "%4 ";
    assert RunLength(s, 1, Digit) == 1 by { assert RunLength(s, 2, Digit) == 0; }
    assert s[1..2] == "4";
    assert MatchAt(s, 0) == Some(TokenMatch(RenameToken("4", ""), 2));
    assert MatchAt(s, 2).None?;
    assert TokenizeFrom(s, 2) == [Literal(' ')] + TokenizeFrom(s, 3);
  }

  /** With the mask "00", 3 renders as "03". */
  lemma FormatRenameNumberExample()
    ensures FormatRenameNumber(RenameToken("3", "00"), 3) == "03"
  {
    FormatNumberExample();
  }
}
