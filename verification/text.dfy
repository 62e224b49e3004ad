/** String primitives that content.js takes from JavaScript: `String.prototype.trim`,
    the `\s` character class, the tag-stripping `replace(/<[^>]+>/g, '')`, and the
    ASCII case folding of a regular expression with the `i` flag. */
module Text {

  datatype Option<T> = None | Some(value: T)

  /** JavaScript's WhiteSpace and LineTerminator code points: the set that both
      `String.prototype.trim` and the regular-expression class `\s` use. */
  predicate IsSpace(c: char)
  {
    var n := c as int;
    (9 <= n <= 13) || n == 0x20 || n == 0xA0 || n == 0x1680 || (0x2000 <= n <= 0x200A)
    || n == 0x2028 || n == 0x2029 || n == 0x202F || n == 0x205F || n == 0x3000 || n == 0xFEFF
  }

  predicate IsAsciiLetter(c: char)
  {
    ('a' <= c <= 'z') || ('A' <= c <= 'Z')
  }

  predicate AllSpace(s: string)
  {
    forall i :: 0 <= i < |s| ==> IsSpace(s[i])
  }

  /** No white space at either end. */
  predicate IsTrimmed(s: string)
  {
    s == [] || (!IsSpace(s[0]) && !IsSpace(s[|s| - 1]))
  }

  /** `String.prototype.trimStart`. */
  function TrimStart(s: string): string
    decreases |s|
  {
    if s != [] && IsSpace(s[0]) then TrimStart(s[1..]) else s
  }

  /** `String.prototype.trimEnd`. */
  function TrimEnd(s: string): string
    decreases |s|
  {
    if s != [] && IsSpace(s[|s| - 1]) then TrimEnd(s[..|s| - 1]) else s
  }

  /** `String.prototype.trim`. */
  function Trim(s: string): string
  {
    TrimEnd(TrimStart(s))
  }

  /** trimStart removes a prefix of white space, and exactly the longest one. */
  lemma {:induction false} TrimStartSpec(s: string)
    ensures |TrimStart(s)| <= |s| && TrimStart(s) == s[|s| - |TrimStart(s)|..]
    ensures forall i :: 0 <= i < |s| - |TrimStart(s)| ==> IsSpace(s[i])
    ensures TrimStart(s) == [] || !IsSpace(TrimStart(s)[0])
    decreases |s|
  {
    if s != [] && IsSpace(s[0]) {
      TrimStartSpec(s[1..]);
    }
  }

  /** trimEnd removes a suffix of white space, and exactly the longest one. */
  lemma {:induction false} TrimEndSpec(s: string)
    ensures |TrimEnd(s)| <= |s| && TrimEnd(s) == s[..|TrimEnd(s)|]
    ensures forall i :: |TrimEnd(s)| <= i < |s| ==> IsSpace(s[i])
    ensures TrimEnd(s) == [] || !IsSpace(TrimEnd(s)[|TrimEnd(s)| - 1])
    decreases |s|
  {
    if s != [] && IsSpace(s[|s| - 1]) {
      TrimEndSpec(s[..|s| - 1]);
    }
  }

  /** The result of trim has no white space at either end. */
  lemma TrimIsTrimmed(s: string)
    ensures IsTrimmed(Trim(s))
  {
    var t := TrimStart(s);
    TrimStartSpec(s);
    TrimEndSpec(t);
    if TrimEnd(t) != [] {
      assert TrimEnd(t)[0] == t[0];
    }
  }

  /** What trim removes is white space only, at the two ends. */
  lemma TrimDropsOnlySpace(s: string)
    ensures exists pre, post {:trigger AllSpace(pre), AllSpace(post)} :: AllSpace(pre) && AllSpace(post) && s == pre + Trim(s) + post
  {
    TrimStartSpec(s);
    TrimEndSpec(TrimStart(s));
    SpaceAround(s, TrimStart(s), Trim(s));
  }

  /** `r` is what is left of `s` after a white-space prefix and then a white-space
      suffix are cut off. */
  lemma SpaceAround(s: string, t: string, r: string)
    requires |t| <= |s| && t == s[|s| - |t|..] && forall i :: 0 <= i < |s| - |t| ==> IsSpace(s[i])
    requires |r| <= |t| && r == t[..|r|] && forall i :: |r| <= i < |t| ==> IsSpace(t[i])
    ensures exists pre, post {:trigger AllSpace(pre), AllSpace(post)} :: AllSpace(pre) && AllSpace(post) && s == pre + r + post
  {
    var pre, post := s[..|s| - |t|], t[|r|..];
    assert s == pre + t;
    assert t == r + post;
    assert AllSpace(pre) && AllSpace(post) && s == pre + r + post;
  }

  lemma TrimOfTrimmed(s: string)
    requires IsTrimmed(s)
    ensures Trim(s) == s
  {
    TrimStartSpec(s);
    TrimEndSpec(s);
  }

  /** A string made only of white space trims to the empty string, and only such a one. */
  lemma TrimEmptyIff(s: string)
    ensures Trim(s) == [] <==> AllSpace(s)
  {
    TrimStartSpec(s);
    TrimEndSpec(TrimStart(s));
  }

  // ---------------------------------------------------------------------------
  // Case-insensitive matching of ASCII literals (the `i` flag, non-Unicode mode)
  // ---------------------------------------------------------------------------

  function Lower(c: char): char
  {
    if 'A' <= c <= 'Z' then (c as int + 32) as char else c
  }

  /** `w` occurs at index `p` of `s`, letters compared without regard to ASCII case. */
  predicate MatchCIAt(s: string, p: nat, w: string)
  {
    p + |w| <= |s| && forall t :: 0 <= t < |w| ==> Lower(s[p + t]) == Lower(w[t])
  }

  /** The first index at or after `from` where `w` occurs, ignoring ASCII case. */
  function FindCI(s: string, w: string, from: nat): (r: Option<nat>)
    decreases |s| - from
    ensures r.Some? ==> from <= r.value && MatchCIAt(s, r.value, w)
                        && forall p :: from <= p < r.value ==> !MatchCIAt(s, p, w)
    ensures r.None? ==> forall p :: from <= p ==> !MatchCIAt(s, p, w)
  {
    if from + |w| > |s| then None
    else if MatchCIAt(s, from, w) then Some(from)
    else FindCI(s, w, from + 1)
  }

  predicate ContainsCI(s: string, w: string)
  {
    FindCI(s, w, 0).Some?
  }

  /** `w` occurs in `s` exactly (case-sensitively) at index `p`. */
  predicate StartsAt(s: string, p: nat, w: string)
  {
    p + |w| <= |s| && forall t :: 0 <= t < |w| ==> s[p + t] == w[t]
  }

  /** The index of the first white-space-free position at or after `p` (`\s*` taken greedily). */
  function SkipSpaces(s: string, p: nat): (r: nat)
    requires p <= |s|
    decreases |s| - p
    ensures p <= r <= |s|
  {
    if p < |s| && IsSpace(s[p]) then SkipSpaces(s, p + 1) else p
  }

  /** What `SkipSpaces` skips is all white space, and it stops at the first other
      character. */
  lemma {:induction false} SkipSpacesSpec(s: string, p: nat)
    requires p <= |s|
    decreases |s| - p
    ensures forall i :: p <= i < SkipSpaces(s, p) ==> IsSpace(s[i])
    ensures SkipSpaces(s, p) == |s| || !IsSpace(s[SkipSpaces(s, p)])
  {
    if p < |s| && IsSpace(s[p]) {
      SkipSpacesSpec(s, p + 1);
    }
  }

  // ---------------------------------------------------------------------------
  // Tag stripping: name.replace(/<[^>]+>/g, '')
  // ---------------------------------------------------------------------------

  /** The first index at or after `from` holding `c`. */
  function FindChar(s: string, c: char, from: nat): (r: Option<nat>)
    decreases |s| - from
    ensures r.Some? ==> from <= r.value < |s| && s[r.value] == c
                        && forall p :: from <= p < r.value ==> s[p] != c
    ensures r.None? ==> forall p :: from <= p < |s| ==> s[p] != c
  {
    if from >= |s| then None
    else if s[from] == c then Some(from)
    else FindChar(s, c, from + 1)
  }

  /** `<[^>]+>` matches at index `p`: a `<`, at least one character other than `>`,
      and a later `>` (the match then ends at the first `>` after `p`). */
  predicate TagAt(s: string, p: nat)
  {
    p + 1 < |s| && s[p] == '<' && s[p + 1] != '>' && FindChar(s, '>', p + 2).Some?
  }

  predicate NoTags(s: string)
  {
    forall p :: 0 <= p < |s| ==> !TagAt(s, p)
  }

  /** Removes, left to right, every non-overlapping match of `<[^>]+>`. */
  function StripTags(s: string): string
    decreases |s|
  {
    if s == [] then []
    else if TagAt(s, 0) then
      match FindChar(s, '>', 2)
      case Some(j) => StripTags(s[j + 1..])
      case None => assert false; []
    else [s[0]] + StripTags(s[1..])
  }

  lemma {:induction false} StripTagsChars(s: string)
    ensures forall c :: c in StripTags(s) ==> c in s
    decreases |s|
  {
    if s == [] {
    } else if TagAt(s, 0) {
      var j := FindChar(s, '>', 2).value;
      StripTagsChars(s[j + 1..]);
      forall c | c in s[j + 1..] ensures c in s {
        var k :| 0 <= k < |s[j + 1..]| && s[j + 1..][k] == c;
        assert s[j + 1 + k] == c;
      }
    } else {
      StripTagsChars(s[1..]);
    }
  }

  lemma TagAtShift(c: char, s: string, p: nat)
    ensures TagAt([c] + s, p + 1) == TagAt(s, p)
  {
    var t := [c] + s;
    if p + 1 < |s| {
      assert t[p + 3..] == s[p + 2..];
    }
  }

  /** Nothing matching `<[^>]+>` survives the global replace. */
  lemma {:induction false} StripTagsNoTags(s: string)
    ensures NoTags(StripTags(s))
    decreases |s|
  {
    if s == [] {
    } else if TagAt(s, 0) {
      var j := FindChar(s, '>', 2).value;
      StripTagsNoTags(s[j + 1..]);
    } else {
      var rest := StripTags(s[1..]);
      StripTagsNoTags(s[1..]);
      var r := [s[0]] + rest;
      assert StripTags(s) == r;
      forall p | 0 <= p < |r| ensures !TagAt(r, p) {
        if p > 0 {
          TagAtShift(s[0], rest, p - 1);
        } else if TagAt(r, 0) {
          if s[1] == '>' {
            assert false;
          } else {
            assert '>' !in s[1..];
            StripTagsChars(s[1..]);
            assert false;
          }
        }
      }
    }
  }

  /** Text without tags is left as it is. */
  lemma {:induction false} StripTagsOfTagFree(s: string)
    requires NoTags(s)
    ensures StripTags(s) == s
    decreases |s|
  {
    if s != [] {
      assert !TagAt(s, 0);
      NoTagsTail(s);
      StripTagsOfTagFree(s[1..]);
      assert StripTags(s) == [s[0]] + StripTags(s[1..]);
      assert s == [s[0]] + s[1..];
    }
  }

  lemma NoTagsTail(s: string)
    requires s != [] && NoTags(s)
    ensures NoTags(s[1..])
  {
    forall p | 0 <= p < |s[1..]| ensures !TagAt(s[1..], p) {
      assert s == [s[0]] + s[1..];
      TagAtShift(s[0], s[1..], p);
      assert !TagAt(s, p + 1);
    }
  }

  /** A piece of a text as the global replace sees it: a character it keeps, or a
      match of `<[^>]+>` it removes. */
  datatype Piece = Kept(c: char) | Tag(text: string)

  /** The text cut into the pieces of the global replace, left to right. */
  function Pieces(s: string): seq<Piece>
    decreases |s|
  {
    if s == [] then []
    else if TagAt(s, 0) then
      match FindChar(s, '>', 2)
      case Some(j) => [Tag(s[..j + 1])] + Pieces(s[j + 1..])
      case None => assert false; []
    else [Kept(s[0])] + Pieces(s[1..])
  }

  function PieceText(p: Piece): string
  {
    match p
    case Kept(c) => [c]
    case Tag(t) => t
  }

  /** All the pieces, put back together. */
  function Flatten(ps: seq<Piece>): string
    decreases |ps|
  {
    if ps == [] then [] else PieceText(ps[0]) + Flatten(ps[1..])
  }

  /** The kept characters only. */
  function KeptChars(ps: seq<Piece>): string
    decreases |ps|
  {
    if ps == [] then []
    else (if ps[0].Kept? then [ps[0].c] else []) + KeptChars(ps[1..])
  }

  /** A whole match of `<[^>]+>`: `<`, at least one character, and the first `>`. */
  predicate IsTagMatch(t: string)
  {
    |t| >= 3 && t[0] == '<' && t[|t| - 1] == '>' && forall k :: 0 <= k < |t| - 1 ==> t[k] != '>'
  }

  lemma FlattenCons(p: Piece, ps: seq<Piece>)
    ensures Flatten([p] + ps) == PieceText(p) + Flatten(ps)
    ensures KeptChars([p] + ps) == (if p.Kept? then [p.c] else []) + KeptChars(ps)
  {
    assert ([p] + ps)[1..] == ps;
  }

  /** A tag at the front is removed whole, up to its first `>`. */
  lemma PiecesTagStep(s: string, j: nat)
    requires TagAt(s, 0) && FindChar(s, '>', 2) == Some(j)
    ensures Pieces(s) == [Tag(s[..j + 1])] + Pieces(s[j + 1..])
  {
    assert s != [];
  }

  lemma StripTagsTagStep(s: string, j: nat)
    requires TagAt(s, 0) && FindChar(s, '>', 2) == Some(j)
    ensures StripTags(s) == StripTags(s[j + 1..])
  {
    assert s != [];
  }

  /** Cutting a text at two indices and putting the three parts back gives the text. */
  lemma SliceConcat(s: string, q: nat, e: nat)
    requires q <= e <= |s|
    ensures s[..q] + s[q..e] + s[e..] == s
  {
  }

  /** The first piece is a removed tag exactly when a match of `<[^>]+>` starts the
      text, so a character is kept only when no match starts at it. */
  lemma PiecesHead(s: string)
    requires s != []
    ensures |Pieces(s)| > 0
    ensures Pieces(s)[0].Tag? <==> TagAt(s, 0)
  {
  }

  /** A character that starts no tag is kept. */
  lemma PiecesKeptStep(s: string)
    requires s != [] && !TagAt(s, 0)
    ensures Pieces(s) == [Kept(s[0])] + Pieces(s[1..])
    ensures StripTags(s) == [s[0]] + StripTags(s[1..])
  {
  }

  /** The pieces put back in order give the text. */
  lemma {:induction false} PiecesFlatten(s: string)
    ensures Flatten(Pieces(s)) == s
    decreases |s|
  {
    if s == [] {
    } else if TagAt(s, 0) {
      var j := FindChar(s, '>', 2).value;
      PiecesTagStep(s, j);
      PiecesFlatten(s[j + 1..]);
      FlattenCons(Tag(s[..j + 1]), Pieces(s[j + 1..]));
      SliceConcat(s, j + 1, |s|);
    } else {
      PiecesKeptStep(s);
      PiecesFlatten(s[1..]);
      FlattenCons(Kept(s[0]), Pieces(s[1..]));
      assert s == [s[0]] + s[1..];
    }
  }

  /** The result of stripping is the kept characters, in order. */
  lemma {:induction false} PiecesKept(s: string)
    ensures KeptChars(Pieces(s)) == StripTags(s)
    decreases |s|
  {
    if s == [] {
    } else if TagAt(s, 0) {
      var j := FindChar(s, '>', 2).value;
      PiecesTagStep(s, j);
      StripTagsTagStep(s, j);
      PiecesKept(s[j + 1..]);
      FlattenCons(Tag(s[..j + 1]), Pieces(s[j + 1..]));
    } else {
      PiecesKeptStep(s);
      PiecesKept(s[1..]);
      FlattenCons(Kept(s[0]), Pieces(s[1..]));
    }
  }

  /** Every removed piece is one whole match of `<[^>]+>`. */
  lemma {:induction false} PiecesTags(s: string)
    ensures forall p :: p in Pieces(s) && p.Tag? ==> IsTagMatch(p.text)
    decreases |s|
  {
    if s == [] {
    } else if TagAt(s, 0) {
      var j := FindChar(s, '>', 2).value;
      var t := s[..j + 1];
      PiecesTagStep(s, j);
      PiecesTags(s[j + 1..]);
      forall k | 0 <= k < |t| - 1 ensures t[k] != '>' {
        assert t[k] == s[k];
      }
      assert IsTagMatch(t);
    } else {
      PiecesKeptStep(s);
      PiecesTags(s[1..]);
    }
  }

  /** Stripping tags only deletes, and what it deletes are matches of `<[^>]+>`: the
      text is its pieces put back in order, the result is the kept characters in
      order, and each removed piece is one whole match. */
  lemma StripTagsPieces(s: string)
    ensures Flatten(Pieces(s)) == s
    ensures KeptChars(Pieces(s)) == StripTags(s)
    ensures forall p :: p in Pieces(s) && p.Tag? ==> IsTagMatch(p.text)
  {
    PiecesFlatten(s);
    PiecesKept(s);
    PiecesTags(s);
  }

  /** Stripping tags is idempotent. */
  lemma StripTagsIdempotent(s: string)
    ensures StripTags(StripTags(s)) == StripTags(s)
  {
    StripTagsNoTags(s);
    StripTagsOfTagFree(StripTags(s));
  }
}
