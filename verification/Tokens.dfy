/**
  strfd, no_leading and strtok of lib/string.c, and the loop in which
  fat16_find takes a path apart.  A C string is its characters without the
  terminating NUL; a pointer into it is an index, and NULL is -1.
 */
module Tokens {

  // ------------------------------------------------------------------- search

  ghost predicate OccursAt(s: string, pat: string, i: int) {
    0 <= i && i + |pat| <= |s| && s[i..i + |pat|] == pat
  }

  // The leftmost occurrence at or after `from`; -1 if there is none, and for an
  // empty pattern.
  ghost predicate IsLeftmost(s: string, pat: string, from: int, r: int) {
    if r == -1 then pat == "" || forall i :: from <= i ==> !OccursAt(s, pat, i)
    else pat != "" && from <= r && OccursAt(s, pat, r) && forall i :: from <= i < r ==> !OccursAt(s, pat, i)
  }

  method StrFd(s: string, from: int, pat: string) returns (r: int)
    requires 0 <= from <= |s|
    ensures IsLeftmost(s, pat, from, r)
  {
    if pat == "" {
      return -1;
    }
    var i := from;
    while i < |s|
      invariant from <= i <= |s|
      invariant forall k :: from <= k < i ==> !OccursAt(s, pat, k)
    {
      var j := 0;
      while j < |pat|
        invariant 0 <= j <= |pat| && i + j <= |s|
        invariant s[i..i + j] == pat[..j]
      {
        if i + j >= |s| || s[i + j] != pat[j] {
          break;
        }
        assert s[i..i + j + 1] == s[i..i + j] + [s[i + j]];
        j := j + 1;
      }
      if j == |pat| {
        return i;
      }
      assert !OccursAt(s, pat, i);
      i := i + 1;
    }
    forall k | from <= k ensures !OccursAt(s, pat, k) {}
    return -1;
  }

  // ------------------------------------------- tokens, for one delimiter character

  // Skipping delimiters.
  function SkipDel(s: string, i: int, d: char): (r: int)
    requires 0 <= i <= |s|
    ensures i <= r <= |s|
    ensures r < |s| ==> s[r] != d
    ensures forall k :: i <= k < r ==> s[k] == d
    decreases |s| - i
  {
    if i < |s| && s[i] == d then SkipDel(s, i + 1, d) else i
  }

  // The end of the run of other characters.
  function EndOf(s: string, i: int, d: char): (r: int)
    requires 0 <= i <= |s|
    ensures i <= r <= |s|
    ensures r < |s| ==> s[r] == d
    ensures forall k :: i <= k < r ==> s[k] != d
    decreases |s| - i
  {
    if i < |s| && s[i] != d then EndOf(s, i + 1, d) else i
  }

  lemma OccursChar(s: string, d: char, i: int)
    ensures OccursAt(s, [d], i) <==> 0 <= i < |s| && s[i] == d
  {}

  // strfd for a one-character pattern.
  lemma LeftmostChar(s: string, d: char, from: int, r: int)
    requires 0 <= from <= |s| && IsLeftmost(s, [d], from, r)
    ensures r == if EndOf(s, from, d) < |s| then EndOf(s, from, d) else -1
  {
    var e := EndOf(s, from, d);
    OccursChar(s, d, e);
    if r != -1 { OccursChar(s, d, r); }
    forall k | from <= k < e ensures !OccursAt(s, [d], k) { OccursChar(s, d, k); }
  }

  method NoLeading(s: string, from: int, d: char) returns (r: int)
    requires 0 <= from <= |s|
    ensures r == SkipDel(s, from, d)
  {
    r := from;
    while r < |s|
      invariant from <= r <= |s| && SkipDel(s, r, d) == SkipDel(s, from, d)
    {
      var at := StrFd(s, r, [d]);
      LeftmostChar(s, d, r, at);
      if at != r {
        break;
      }
      r := r + 1;
    }
  }

  // The token, and where the next one starts; -1 if there is none.
  method StrTok(s: string, from: int, d: char) returns (token: string, next: int)
    requires 0 <= from <= |s|
    ensures var i := SkipDel(s, from, d);
            var e := EndOf(s, i, d);
            && token == s[i..e]
            && next == if SkipDel(s, e, d) < |s| then SkipDel(s, e, d) else -1
  {
    var i := NoLeading(s, from, d);
    var e := StrFd(s, i, [d]);
    LeftmostChar(s, d, i, e);
    if e == -1 {
      token, next := s[i..], -1;
      return;
    }
    token := [];
    var k := i;
    while k != e
      invariant i <= k <= e && token == s[i..k]
      decreases e - k
    {
      token := token + [s[k]];
      k := k + 1;
    }
    next := NoLeading(s, e + 1, d);
    if next == |s| {
      next := -1;
    }
  }

  // --------------------------------------------------------------- the reference

  // The text cut at every delimiter, empty pieces included.
  function Fields(s: string, d: char): (fs: seq<string>)
    ensures |fs| >= 1
  {
    if s == "" then [""]
    else
      var rest := Fields(s[1..], d);
      if s[0] == d then [""] + rest else [[s[0]] + rest[0]] + rest[1..]
  }

  function Join(fs: seq<string>, d: char): string
    requires |fs| >= 1
  {
    if |fs| == 1 then fs[0] else fs[0] + [d] + Join(fs[1..], d)
  }

  function NonEmpty(fs: seq<string>): seq<string> {
    if fs == [] then [] else if fs[0] == "" then NonEmpty(fs[1..]) else [fs[0]] + NonEmpty(fs[1..])
  }

  // Fields is the cut: joining the pieces gives the text back, and no piece
  // holds a delimiter.
  lemma {:induction false} FieldsCut(s: string, d: char)
    ensures Join(Fields(s, d), d) == s
    ensures forall i :: 0 <= i < |Fields(s, d)| ==> d !in Fields(s, d)[i]
    decreases |s|
  {
    if s != "" {
      FieldsCut(s[1..], d);
      var rest, fs := Fields(s[1..], d), Fields(s, d);
      if s[0] == d {
        assert fs[1..] == rest;
      } else {
        assert fs[1..] == rest[1..];
      }
      assert s == [s[0]] + s[1..];
    }
  }

  // A delimiter at the front only adds an empty piece.
  lemma {:induction false} SkipFields(s: string, d: char, i: int)
    requires 0 <= i <= |s|
    ensures NonEmpty(Fields(s[i..], d)) == NonEmpty(Fields(s[SkipDel(s, i, d)..], d))
    decreases |s| - i
  {
    if i < |s| && s[i] == d {
      assert s[i..][1..] == s[i + 1..];
      assert ([""] + Fields(s[i + 1..], d))[1..] == Fields(s[i + 1..], d);
      SkipFields(s, d, i + 1);
    }
  }

  // One more character in front makes a new piece or lengthens the first one.
  lemma FieldsDelim(s: string, d: char, i: int)
    requires 0 <= i < |s| && s[i] == d
    ensures Fields(s[i..], d) == [""] + Fields(s[i + 1..], d)
  {
    assert s[i..][1..] == s[i + 1..];
  }

  lemma FieldsCons(s: string, d: char, i: int, e: int, fs: seq<string>)
    requires 0 <= i < e <= |s| && s[i] != d && Fields(s[i + 1..], d) == [s[i + 1..e]] + fs
    ensures Fields(s[i..], d) == [s[i..e]] + fs
  {
    assert s[i..][1..] == s[i + 1..];
    assert Fields(s[i + 1..], d)[0] == s[i + 1..e] && Fields(s[i + 1..], d)[1..] == fs;
    assert s[i..e] == [s[i]] + s[i + 1..e];
  }

  // The pieces after one that ends at e.
  function Behind(s: string, d: char, e: int): seq<string>
    requires 0 <= e <= |s|
  {
    if e < |s| then Fields(s[e + 1..], d) else []
  }

  // A run of other characters is the first piece.
  lemma {:induction false} RunFields(s: string, d: char, i: int)
    requires 0 <= i <= |s|
    ensures Fields(s[i..], d) == [s[i..EndOf(s, i, d)]] + Behind(s, d, EndOf(s, i, d))
    decreases |s| - i
  {
    if i == |s| {
      assert s[i..] == "" && s[i..i] == "";
    } else if s[i] == d {
      FieldsDelim(s, d, i);
      assert s[i..i] == "";
    } else {
      RunFields(s, d, i + 1);
      FieldsCons(s, d, i, EndOf(s, i, d), Behind(s, d, EndOf(s, i, d)));
    }
  }

  lemma FirstField(f: string, fs: seq<string>)
    requires f != ""
    ensures NonEmpty([f] + fs) == [f] + NonEmpty(fs)
  {
    assert ([f] + fs)[1..] == fs;
  }

  lemma NoFields(s: string, d: char)
    ensures NonEmpty(Fields(s[|s|..], d)) == []
  {
    assert s[|s|..] == "";
    assert NonEmpty([""]) == NonEmpty([""][1..]) == [];
  }

  // A token that ends at a delimiter, and one that ends the text.
  lemma TokenInside(s: string, d: char, i: int, e: int)
    requires 0 <= i < e < |s| && e == EndOf(s, i, d)
    ensures NonEmpty(Fields(s[i..], d)) == [s[i..e]] + NonEmpty(Fields(s[SkipDel(s, e, d)..], d))
  {
    assert SkipDel(s, e, d) == SkipDel(s, e + 1, d);
    assert NonEmpty(Fields(s[e + 1..], d)) == NonEmpty(Fields(s[SkipDel(s, e, d)..], d)) by { SkipFields(s, d, e + 1); }
    assert Fields(s[i..], d) == [s[i..e]] + Fields(s[e + 1..], d) by { RunFields(s, d, i); }
    FirstField(s[i..e], Fields(s[e + 1..], d));
  }

  lemma TokenAtEnd(s: string, d: char, i: int)
    requires 0 <= i < |s| == EndOf(s, i, d)
    ensures NonEmpty(Fields(s[i..], d)) == [s[i..|s|]]
  {
    RunFields(s, d, i);
    FirstField(s[i..|s|], []);
    assert [s[i..|s|]] + [] == [s[i..|s|]];
  }

  // What one strtok call takes off the front.
  lemma TokenFields(s: string, d: char, from: int)
    requires 0 <= from <= |s|
    ensures var i := SkipDel(s, from, d);
            var e := EndOf(s, i, d);
            NonEmpty(Fields(s[from..], d)) ==
              (if i == |s| then [] else [s[i..e]] + NonEmpty(Fields(s[SkipDel(s, e, d)..], d)))
  {
    var i := SkipDel(s, from, d);
    var e := EndOf(s, i, d);
    SkipFields(s, d, from);
    NoFields(s, d);
    if i < |s| {
      if e < |s| { TokenInside(s, d, i, e); } else { TokenAtEnd(s, d, i); }
    }
  }

  // The tokens still to come when strtok has returned `next`.
  ghost function ToCome(s: string, d: char, next: int): seq<string>
    requires -1 <= next <= |s|
  {
    if next == -1 then [] else NonEmpty(Fields(s[next..], d))
  }

  // One strtok call takes the first of the tokens to come, and moves on; an
  // empty token means that there was none.
  lemma TokenStep(s: string, d: char, from: int, token: string, next: int)
    requires 0 <= from <= |s|
    requires var i := SkipDel(s, from, d);
             var e := EndOf(s, i, d);
             token == s[i..e] && next == if SkipDel(s, e, d) < |s| then SkipDel(s, e, d) else -1
    ensures token == "" ==> ToCome(s, d, from) == []
    ensures token != "" ==> ToCome(s, d, from) == [token] + ToCome(s, d, next) && (next == -1 || from < next)
  {
    TokenFields(s, d, from);
    NoFields(s, d);
  }

  // The tokens taken so far and those to come are all the tokens.
  ghost predicate Taken(path: string, d: char, tokens: seq<string>, next: int) {
    -1 <= next <= |path| && tokens + ToCome(path, d, next) == NonEmpty(Fields(path, d))
  }

  // One round of fat16_find's loop.
  method NextToken(path: string, d: char, from: int, ghost tokens: seq<string>) returns (token: string, next: int)
    requires 0 <= from && Taken(path, d, tokens, from)
    ensures token == "" ==> tokens == NonEmpty(Fields(path, d))
    ensures token != "" ==> Taken(path, d, tokens + [token], next) && (next == -1 || from < next)
  {
    token, next := StrTok(path, from, d);
    TokenStep(path, d, from, token, next);
    if token == "" {
      assert tokens + [] == tokens;
    } else {
      MoveOver(tokens, token, ToCome(path, d, next));
    }
  }

  lemma MoveOver(tokens: seq<string>, token: string, rest: seq<string>)
    ensures tokens + ([token] + rest) == (tokens + [token]) + rest
  {}

  // fat16_find's loop: the tokens of a path are its non-empty pieces, in order.
  // Each is copied to the front of one segment buffer and ended with a NUL;
  // `stored` is how many cells of that buffer the copies reach.  So a buffer of n
  // cells holds them all exactly if every piece has fewer than n characters.
  method PathTokens(path: string, d: char) returns (tokens: seq<string>, stored: nat)
    ensures tokens == NonEmpty(Fields(path, d))
    ensures forall n :: n >= 1 ==> (stored <= n <==> Shorter(tokens, n))
  {
    tokens, stored := [], 0;
    var next := 0;
    assert path[0..] == path;
    while next != -1
      invariant Taken(path, d, tokens, next) && Reaches(tokens, stored)
      decreases if next == -1 then 0 else |path| - next + 1
    {
      var token;
      token, next := NextToken(path, d, next, tokens);
      ReachesMore(tokens, stored, token);
      if stored < |token| + 1 {
        stored := |token| + 1;
      }
      if token == "" {
        break;
      }
      tokens := tokens + [token];
    }
    ReachesIff(tokens, stored);
  }

  ghost predicate Shorter(tokens: seq<string>, n: int) {
    forall i :: 0 <= i < |tokens| ==> |tokens[i]| < n
  }

  // All tokens and their NULs lie below `stored`, and one of them reaches it.
  ghost predicate Reaches(tokens: seq<string>, stored: int) {
    && Shorter(tokens, stored)
    && (stored <= 1 || exists i :: 0 <= i < |tokens| && |tokens[i]| + 1 == stored)
  }

  lemma ReachesMore(tokens: seq<string>, stored: int, token: string)
    requires Reaches(tokens, stored)
    ensures Reaches(tokens + [token], if stored < |token| + 1 then |token| + 1 else stored)
    ensures token == "" ==> Reaches(tokens, if stored < 1 then 1 else stored)
  {
    var more := tokens + [token];
    assert more[|tokens|] == token;
    if stored > |token| + 1 {
      var i :| 0 <= i < |tokens| && |tokens[i]| + 1 == stored;
      assert more[i] == tokens[i];
    }
  }

  lemma ReachesIff(tokens: seq<string>, stored: int)
    requires Reaches(tokens, stored)
    ensures forall n :: n >= 1 ==> (stored <= n <==> Shorter(tokens, n))
  {
    forall n | n >= 1 && Shorter(tokens, n) ensures stored <= n {}
  }

  // The segment of fat16_find has 16 characters: a piece of 16 or more overruns it.
  method SegmentFits(path: string) returns (fits: bool)
    ensures fits <==> forall i :: 0 <= i < |NonEmpty(Fields(path, '/'))| ==> |NonEmpty(Fields(path, '/'))[i]| <= 15
  {
    var tokens, stored := PathTokens(path, '/');
    fits := stored <= 16;
    assert fits <==> Shorter(tokens, 16);
  }
}
