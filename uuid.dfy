/**
 * Identifier validation and generation of the movie client: the textual UUID
 * shape of section 3 of RFC 4122 and the random-UUID recipe of its section 4.4.
 */
module Uuid {

  /** `[0-9a-f]` under the regular expression's `i` flag. */
  predicate IsHexDigit(c: char) {
    '0' <= c <= '9' || 'a' <= c <= 'f' || 'A' <= c <= 'F'
  }

  /** One element of an anchored regular expression without alternation: a
      character class `[0-9a-f]{count}` repeated exactly count times, or one
      literal character. */
  datatype Token = HexRun(count: nat) | Literal(c: char)

  /** The validation pattern: anchored at both ends, runs of 8, 4, 4, 4 and
      12 hex digits separated by single hyphens, letters in either case. */
  const UuidPattern: seq<Token> :=
    [HexRun(8), Literal('-'), HexRun(4), Literal('-'), HexRun(4), Literal('-'),
     HexRun(4), Literal('-'), HexRun(12)]

  function Width(t: Token): nat {
    match t
    case HexRun(n) => n
    case Literal(_) => 1
  }

  predicate Accepts(t: Token, c: char) {
    match t
    case HexRun(_) => IsHexDigit(c)
    case Literal(l) => c == l
  }

  /** Whether the whole of s matches p, anchored at both ends. Every count is
      exact, so each token consumes a fixed number of characters and no
      backtracking is needed. */
  predicate Matches(p: seq<Token>, s: string)
    decreases |p|
  {
    if p == [] then s == []
    else
      var w := Width(p[0]);
      w <= |s| && (forall i :: 0 <= i < w ==> Accepts(p[0], s[i])) && Matches(p[1..], s[w..])
  }

  /** RegExp.prototype.test with the validation pattern (isValidUUID). */
  predicate IsValidUuid(s: string)
    ensures IsValidUuid(s) ==> |s| == 36
  {
    MatchesByPosition(UuidPattern, s);
    UuidPatternWidth();
    Matches(UuidPattern, s)
  }

  /** The number of characters a pattern consumes. */
  function PatternWidth(p: seq<Token>): nat {
    if p == [] then 0 else Width(p[0]) + PatternWidth(p[1..])
  }

  /** Whether the token of p that covers position i accepts c. */
  predicate AcceptsAt(p: seq<Token>, i: nat, c: char)
    requires i < PatternWidth(p)
    decreases |p|
  {
    if i < Width(p[0]) then Accepts(p[0], c) else AcceptsAt(p[1..], i - Width(p[0]), c)
  }

  /** A pattern matches exactly the strings of its width whose every character
      is accepted by the token covering its position. */
  lemma {:induction false} MatchesByPosition(p: seq<Token>, s: string)
    ensures Matches(p, s) <==>
            |s| == PatternWidth(p) && forall i :: 0 <= i < |s| ==> AcceptsAt(p, i, s[i])
    decreases |p|
  {
    if p != [] {
      var w := Width(p[0]);
      if w <= |s| {
        var t := s[w..];
        MatchesByPosition(p[1..], t);
        if |s| == PatternWidth(p) {
          forall i | w <= i < |s|
            ensures AcceptsAt(p, i, s[i]) == AcceptsAt(p[1..], i - w, t[i - w])
          {
          }
          assert (forall i :: 0 <= i < |t| ==> AcceptsAt(p[1..], i, t[i]))
             <==> (forall i :: w <= i < |s| ==> AcceptsAt(p, i, s[i])) by {
            forall i | 0 <= i < |t| ensures AcceptsAt(p[1..], i, t[i]) == AcceptsAt(p, i + w, s[i + w]) { }
          }
        }
      }
    }
  }

  /** Positions of the four hyphens of the 8-4-4-4-12 shape. */
  predicate IsHyphenPosition(i: int) {
    i == 8 || i == 13 || i == 18 || i == 23
  }

  /** The textual shape of section 3 of RFC 4122, position by position. */
  predicate IsUuidShaped(s: string) {
    |s| == 36 && forall i :: 0 <= i < 36 ==> if IsHyphenPosition(i) then s[i] == '-' else IsHexDigit(s[i])
  }

  /** The validation pattern with its first k tokens consumed. */
  function UuidPatternFrom(k: nat): seq<Token>
    requires k <= 9
  {
    UuidPattern[k..]
  }

  lemma UuidPatternTails()
    ensures UuidPatternFrom(8) == [HexRun(12)]
    ensures UuidPatternFrom(7) == [Literal('-')] + UuidPatternFrom(8)
    ensures UuidPatternFrom(6) == [HexRun(4)] + UuidPatternFrom(7)
    ensures UuidPatternFrom(5) == [Literal('-')] + UuidPatternFrom(6)
    ensures UuidPatternFrom(4) == [HexRun(4)] + UuidPatternFrom(5)
    ensures UuidPatternFrom(3) == [Literal('-')] + UuidPatternFrom(4)
    ensures UuidPatternFrom(2) == [HexRun(4)] + UuidPatternFrom(3)
    ensures UuidPatternFrom(1) == [Literal('-')] + UuidPatternFrom(2)
    ensures UuidPatternFrom(0) == [HexRun(8)] + UuidPatternFrom(1)
  {
  }

  /** One step of AcceptsAt past the first token. */
  lemma AcceptsAtCons(t: Token, p: seq<Token>, i: nat, c: char)
    requires i < PatternWidth([t] + p)
    ensures PatternWidth([t] + p) == Width(t) + PatternWidth(p)
    ensures AcceptsAt([t] + p, i, c) ==
            if i < Width(t) then Accepts(t, c) else AcceptsAt(p, i - Width(t), c)
  {
    assert ([t] + p)[1..] == p;
  }

  /** The token of the validation pattern that covers position i: a hyphen at
      8, 13, 18 and 23, a hex digit elsewhere. */
  lemma UuidPatternWidth()
    ensures PatternWidth(UuidPattern) == 36
  {
    UuidPatternTails();
    assert UuidPatternFrom(8)[1..] == [];
    assert PatternWidth(UuidPatternFrom(8)) == 12;
    AcceptsAtCons(Literal('-'), UuidPatternFrom(8), 0, ' ');
    AcceptsAtCons(HexRun(4), UuidPatternFrom(7), 0, ' ');
    AcceptsAtCons(Literal('-'), UuidPatternFrom(6), 0, ' ');
    AcceptsAtCons(HexRun(4), UuidPatternFrom(5), 0, ' ');
    AcceptsAtCons(Literal('-'), UuidPatternFrom(4), 0, ' ');
    AcceptsAtCons(HexRun(4), UuidPatternFrom(3), 0, ' ');
    AcceptsAtCons(Literal('-'), UuidPatternFrom(2), 0, ' ');
    AcceptsAtCons(HexRun(8), UuidPatternFrom(1), 0, ' ');
  }

  lemma UuidPatternAt(i: nat, c: char)
    requires i < 36
    ensures AcceptsAt(UuidPattern, i, c) <==> if IsHyphenPosition(i) then c == '-' else IsHexDigit(c)
  {
    UuidPatternWidth();
    UuidPatternTails();
    AcceptsAtCons(HexRun(8), UuidPatternFrom(1), i, c);
    if i >= 8 {
      AcceptsAtCons(Literal('-'), UuidPatternFrom(2), i - 8, c);
      if i >= 9 {
        UuidPatternAt1(i - 9, c);
      }
    }
  }

  lemma UuidPatternAt1(j: nat, c: char)
    requires j < 27
    ensures PatternWidth(UuidPatternFrom(2)) == 27
    ensures AcceptsAt(UuidPatternFrom(2), j, c) <==> if j == 4 || j == 9 || j == 14 then c == '-' else IsHexDigit(c)
  {
    UuidPatternTails();
    UuidPatternWidth();
    AcceptsAtCons(HexRun(4), UuidPatternFrom(3), j, c);
    if j >= 4 {
      AcceptsAtCons(Literal('-'), UuidPatternFrom(4), j - 4, c);
      if j >= 5 {
        UuidPatternAt2(j - 5, c);
      }
    }
  }

  lemma UuidPatternAt2(j: nat, c: char)
    requires j < 22
    ensures PatternWidth(UuidPatternFrom(4)) == 22
    ensures AcceptsAt(UuidPatternFrom(4), j, c) <==> if j == 4 || j == 9 then c == '-' else IsHexDigit(c)
  {
    UuidPatternTails();
    UuidPatternWidth();
    AcceptsAtCons(HexRun(4), UuidPatternFrom(5), j, c);
    if j >= 4 {
      AcceptsAtCons(Literal('-'), UuidPatternFrom(6), j - 4, c);
      if j >= 5 {
        UuidPatternAt3(j - 5, c);
      }
    }
  }

  lemma UuidPatternAt3(j: nat, c: char)
    requires j < 17
    ensures PatternWidth(UuidPatternFrom(6)) == 17
    ensures AcceptsAt(UuidPatternFrom(6), j, c) <==> if j == 4 then c == '-' else IsHexDigit(c)
  {
    UuidPatternTails();
    UuidPatternWidth();
    AcceptsAtCons(HexRun(4), UuidPatternFrom(7), j, c);
    if j >= 4 {
      AcceptsAtCons(Literal('-'), UuidPatternFrom(8), j - 4, c);
      if j >= 5 {
        assert UuidPatternFrom(8) == [HexRun(12)] + [];
        assert UuidPatternFrom(8)[1..] == [];
        AcceptsAtCons(HexRun(12), [], j - 5, c);
      }
    }
  }

  /** isValidUUID accepts exactly 36 characters with hyphens at positions 8,
      13, 18 and 23 and a hex digit of either case everywhere else; version
      and variant nibbles are not checked. */
  lemma ValidUuidIsShape(s: string)
    ensures IsValidUuid(s) <==> IsUuidShaped(s)
  {
    MatchesByPosition(UuidPattern, s);
    UuidPatternWidth();
    forall i | 0 <= i < |s| && |s| == 36
      ensures AcceptsAt(UuidPattern, i, s[i]) <==> if IsHyphenPosition(i) then s[i] == '-' else IsHexDigit(s[i])
    {
      UuidPatternAt(i, s[i]);
    }
  }

  /** A random number below 16, truncated to an integer: the randomness
      generateUUID draws, given here as input. */
  type Nibble = n: int | 0 <= n < 16

  /** The number of nibbles one generated identifier draws. */
  const UuidNibbles := 31

  /** The template generateUUID fills, "xxxxxxxx-xxxx-4xxx-yxxx-xxxxxxxxxxxx"
      (TemplateText proves the two equal), built from its groups: `x` is a
      random nibble, `4` the version of section 4.1.3 of RFC 4122, `y` the
      nibble carrying the variant bits of section 4.1.1. */
  const Template: string := Run(8) + "-" + Run(4) + "-4" + Run(3) + "-y" + Run(3) + "-" + Run(12)

  /** Number.prototype.toString(16) of a nibble: one lower-case hex digit. */
  function HexChar(v: Nibble): (c: char)
    ensures IsHexDigit(c)
    ensures ('0' <= c <= '9' && c as int - '0' as int == v) || ('a' <= c <= 'f' && c as int - 'a' as int + 10 == v)
  {
    "0123456789abcdef"[v]
  }

  /** The variant nibble: the two low bits of r kept and the top two set to
      `10`, the variant of section 4.1.1 of RFC 4122. */
  function VariantNibble(r: Nibble): (v: Nibble)
    ensures 8 <= v < 12 && v % 4 == r % 4
  {
    ((r as bv4 & 0x3) | 0x8) as int
  }

  predicate IsPlaceholder(c: char) {
    c == 'x' || c == 'y'
  }

  /** The digit a placeholder becomes: the nibble itself for `x`, its variant
      for `y`. */
  function Digit(placeholder: char, r: Nibble): (c: char)
    requires IsPlaceholder(placeholder)
    ensures IsHexDigit(c)
    ensures placeholder == 'y' ==> c in "89ab"
  {
    if placeholder == 'x' then HexChar(r) else HexChar(VariantNibble(r))
  }

  /** How many nibbles filling t draws. */
  function Placeholders(t: string): nat {
    if t == [] then 0 else (if IsPlaceholder(t[0]) then 1 else 0) + Placeholders(t[1..])
  }

  /** The global replace of the placeholders: every `x` or `y`, left to right,
      is replaced by the digit of the next nibble drawn (reduced to the variant
      for `y`); every other character stays. */
  function Fill(t: string, rs: seq<Nibble>): (u: string)
    requires |rs| == Placeholders(t)
    ensures |u| == |t|
    ensures forall i :: 0 <= i < |t| && !IsPlaceholder(t[i]) ==> u[i] == t[i]
    ensures forall i :: 0 <= i < |t| && t[i] == 'x' ==> IsHexDigit(u[i])
    ensures forall i :: 0 <= i < |t| && t[i] == 'y' ==> u[i] in "89ab"
    decreases |t|
  {
    if t == [] then []
    else if IsPlaceholder(t[0]) then [Digit(t[0], rs[0])] + Fill(t[1..], rs[1..])
    else [t[0]] + Fill(t[1..], rs)
  }

  lemma {:induction false} PlaceholdersAppend(a: string, b: string)
    ensures Placeholders(a + b) == Placeholders(a) + Placeholders(b)
    decreases |a|
  {
    if a == [] {
      assert a + b == b;
    } else {
      assert (a + b)[1..] == a[1..] + b;
      PlaceholdersAppend(a[1..], b);
    }
  }

  /** n placeholders in a row. */
  function Run(n: nat): string {
    seq(n, _ => 'x')
  }

  lemma {:induction false} PlaceholdersOfRun(n: nat)
    ensures Placeholders(Run(n)) == n
  {
    if n > 0 {
      assert Run(n)[1..] == Run(n - 1);
      PlaceholdersOfRun(n - 1);
    }
  }

  lemma TemplateText()
    ensures Template == "xxxxxxxx-xxxx-4xxx-yxxx-xxxxxxxxxxxx"
  {
  }

  lemma TemplateCount()
    ensures Placeholders(Template) == UuidNibbles
  {
    GroupsCount();
  }

  lemma GroupsCount()
    ensures Placeholders(Run(8) + "-" + Run(4) + "-4" + Run(3) + "-y" + Run(3) + "-" + Run(12)) == 31
  {
    var front := Run(8) + "-" + Run(4) + "-4" + Run(3);
    FrontGroupsCount();
    PlaceholdersOfRun(3); PlaceholdersOfRun(12);
    assert Placeholders("-") == 0 && Placeholders("-y") == 1;
    PlaceholdersAppend(front, "-y");
    PlaceholdersAppend(front + "-y", Run(3));
    PlaceholdersAppend(front + "-y" + Run(3), "-");
    PlaceholdersAppend(front + "-y" + Run(3) + "-", Run(12));
  }

  lemma FrontGroupsCount()
    ensures Placeholders(Run(8) + "-" + Run(4) + "-4" + Run(3)) == 15
  {
    PlaceholdersOfRun(8); PlaceholdersOfRun(4); PlaceholdersOfRun(3);
    assert Placeholders("-") == 0 && Placeholders("-4") == 0;
    PlaceholdersAppend(Run(8), "-");
    PlaceholdersAppend(Run(8) + "-", Run(4));
    PlaceholdersAppend(Run(8) + "-" + Run(4), "-4");
    PlaceholdersAppend(Run(8) + "-" + Run(4) + "-4", Run(3));
  }

  lemma TemplateLayout()
    ensures |Template| == 36
    ensures forall i :: 0 <= i < 36 ==>
              if IsHyphenPosition(i) then Template[i] == '-'
              else if i == 14 then Template[i] == '4'
              else if i == 19 then Template[i] == 'y'
              else Template[i] == 'x'
  {
  }

  /** generateUUID, with the random draws supplied: the result always passes
      isValidUUID and carries version 4 and an RFC 4122 variant digit. */
  function GenerateUuid(rs: seq<Nibble>): (u: string)
    requires |rs| == UuidNibbles
    ensures |u| == 36 && IsValidUuid(u)
    ensures u[14] == '4' && u[19] in "89ab"
  {
    TemplateCount();
    FilledTemplateIsUuid(rs);
    Fill(Template, rs)
  }

  lemma FilledTemplateIsUuid(rs: seq<Nibble>)
    requires |rs| == Placeholders(Template)
    ensures |Fill(Template, rs)| == 36 && IsValidUuid(Fill(Template, rs))
    ensures Fill(Template, rs)[14] == '4' && Fill(Template, rs)[19] in "89ab"
  {
    FilledTemplateShape(Template, Fill(Template, rs));
  }

  /** Whatever the nibbles, a fill of the template has the UUID shape, the
      version digit 4 and a variant digit. */
  lemma FilledTemplateShape(t: string, u: string)
    requires t == Template && |u| == |t|
    requires forall i :: 0 <= i < |t| && !IsPlaceholder(t[i]) ==> u[i] == t[i]
    requires forall i :: 0 <= i < |t| && t[i] == 'x' ==> IsHexDigit(u[i])
    requires forall i :: 0 <= i < |t| && t[i] == 'y' ==> u[i] in "89ab"
    ensures IsValidUuid(u) && |u| == 36 && u[14] == '4' && u[19] in "89ab"
  {
    TemplateLayout();
    ValidUuidIsShape(u);
    forall i | 0 <= i < 36
      ensures if IsHyphenPosition(i) then u[i] == '-' else IsHexDigit(u[i])
    {
      if !IsHyphenPosition(i) && i != 14 && i != 19 {
        assert t[i] == 'x';
      }
    }
  }

  /** Placeholders are filled left to right: the one at position i takes the
      draw numbered by how many placeholders precede it. */
  lemma {:induction false} FillDraws(t: string, rs: seq<Nibble>, i: nat)
    requires |rs| == Placeholders(t) && i < |t| && IsPlaceholder(t[i])
    ensures Placeholders(t[..i]) < |rs|
    ensures Fill(t, rs)[i] == Digit(t[i], rs[Placeholders(t[..i])])
    decreases |t|
  {
    if i == 0 {
      assert t[..i] == [];
    } else {
      var rest := if IsPlaceholder(t[0]) then rs[1..] else rs;
      FillDraws(t[1..], rest, i - 1);
      PrefixPlaceholders(t, i);
      FillTail(t, rs, i);
    }
  }

  lemma PrefixPlaceholders(t: string, i: nat)
    requires 0 < i <= |t|
    ensures Placeholders(t[..i]) == (if IsPlaceholder(t[0]) then 1 else 0) + Placeholders(t[1..][..i - 1])
  {
    assert t[..i][1..] == t[1..][..i - 1];
  }

  lemma FillTail(t: string, rs: seq<Nibble>, i: nat)
    requires |rs| == Placeholders(t) && 0 < i < |t|
    ensures Fill(t, rs)[i] == Fill(t[1..], if IsPlaceholder(t[0]) then rs[1..] else rs)[i - 1]
  {
  }

  /** Version and variant are not checked: any hex digit of either case may
      replace any digit of a valid identifier, position 14 (version) and 19
      (variant) included, so the nil UUID passes too. */
  lemma AnyDigitAccepted(s: string, i: nat, c: char)
    requires IsValidUuid(s) && i < |s| && !IsHyphenPosition(i) && IsHexDigit(c)
    ensures IsValidUuid(s[i := c])
  {
    ValidUuidIsShape(s);
    ValidUuidIsShape(s[i := c]);
  }

  /** Only 36-character strings pass: too short, too long and empty are rejected. */
  lemma WrongLengthRejected(s: string)
    requires |s| != 36
    ensures !IsValidUuid(s)
  {
    ValidUuidIsShape(s);
  }

  /** Any other character where a hyphen belongs, such as an underscore, is rejected. */
  lemma MissingHyphenRejected(s: string, i: nat)
    requires IsHyphenPosition(i) && i < |s| && s[i] != '-'
    ensures !IsValidUuid(s)
  {
    ValidUuidIsShape(s);
  }
}
