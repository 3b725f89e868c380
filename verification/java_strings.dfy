/** The few java.lang.String operations the triage code relies on, stated over
    `seq<char>`: indexOf, startsWith and split around a one-character separator. */
module JavaStrings {

  predicate StartsWith(s: string, prefix: string) {
    |prefix| <= |s| && s[..|prefix|] == prefix
  }

  /** `pat` occurs in `s` starting at index `i`. */
  predicate OccursAt(s: string, pat: string, i: int) {
    0 <= i && i + |pat| <= |s| && s[i..i + |pat|] == pat
  }

  predicate Contains(s: string, pat: string) {
    exists i :: 0 <= i <= |s| && OccursAt(s, pat, i)
  }

  /** String.indexOf(String): the first index at which `pat` occurs, or -1.
      The empty pattern occurs at index 0 of every string. */
  function IndexOf(s: string, pat: string): (r: int)
    ensures -1 <= r
    ensures r == -1 <==> !Contains(s, pat)
    ensures r >= 0 ==> OccursAt(s, pat, r) && forall j :: 0 <= j < r ==> !OccursAt(s, pat, j)
  {
    IndexFrom(s, pat, 0)
  }

  function IndexFrom(s: string, pat: string, i: nat): (r: int)
    requires forall j :: 0 <= j < i ==> !OccursAt(s, pat, j)
    ensures -1 <= r
    ensures r == -1 <==> !Contains(s, pat)
    ensures r >= 0 ==> i <= r && OccursAt(s, pat, r) && forall j :: 0 <= j < r ==> !OccursAt(s, pat, j)
    decreases |s| + 1 - i
  {
    if i + |pat| > |s| then -1
    else if s[i..i + |pat|] == pat then
      assert OccursAt(s, pat, i);
      i
    else IndexFrom(s, pat, i + 1)
  }

  /** The pieces joined back together with `d` between consecutive pieces. */
  function Join(pieces: seq<string>, d: char): string
    requires |pieces| > 0
    decreases |pieces|
  {
    if |pieces| == 1 then pieces[0] else pieces[0] + [d] + Join(pieces[1..], d)
  }

  /** Every piece of `s` between occurrences of `d`, empty ones included
      (what String.split returns with a negative limit). */
  function SplitAll(s: string, d: char): (pieces: seq<string>)
    ensures |pieces| > 0
    ensures forall k :: 0 <= k < |pieces| ==> d !in pieces[k]
    ensures Join(pieces, d) == s
    decreases |s|
  {
    if |s| == 0 then [""]
    else
      var rest := SplitAll(s[1..], d);
      if s[0] == d then
        assert ([""] + rest)[1..] == rest;
        [""] + rest
      else
        var pieces := [[s[0]] + rest[0]] + rest[1..];
        assert pieces[1..] == rest[1..];
        assert |rest| > 1 ==> Join(rest, d) == rest[0] + [d] + Join(rest[1..], d);
        assert s == [s[0]] + s[1..];
        pieces
  }

  /** A piece free of `d` is split into itself. */
  lemma {:induction false} SplitAllPiece(p: string, d: char)
    requires d !in p
    ensures SplitAll(p, d) == [p]
    decreases |p|
  {
    if |p| > 0 {
      assert d !in p[1..];
      SplitAllPiece(p[1..], d);
      assert [p[0]] + p[1..] == p;
    }
  }

  /** Splitting a leading `d`-free piece followed by `d` peels that piece off. */
  lemma {:induction false} SplitAllCons(p: string, d: char, t: string)
    requires d !in p
    ensures SplitAll(p + [d] + t, d) == [p] + SplitAll(t, d)
    decreases |p|
  {
    var s := p + [d] + t;
    if |p| == 0 {
      assert s[1..] == t;
    } else {
      assert s[1..] == p[1..] + [d] + t;
      assert d !in p[1..];
      SplitAllCons(p[1..], d, t);
      assert [p[0]] + p[1..] == p;
    }
  }

  /** The converse round trip: splitting joined `d`-free pieces gives them back. */
  lemma {:induction false} SplitAllOfJoin(pieces: seq<string>, d: char)
    requires |pieces| > 0
    requires forall k :: 0 <= k < |pieces| ==> d !in pieces[k]
    ensures SplitAll(Join(pieces, d), d) == pieces
    decreases |pieces|
  {
    if |pieces| == 1 {
      SplitAllPiece(pieces[0], d);
    } else {
      SplitAllOfJoin(pieces[1..], d);
      SplitAllCons(pieces[0], d, Join(pieces[1..], d));
      assert [pieces[0]] + pieces[1..] == pieces;
    }
  }

  function DropTrailingEmpty(pieces: seq<string>): (r: seq<string>)
    ensures r <= pieces
    ensures forall k :: |r| <= k < |pieces| ==> pieces[k] == ""
    ensures |r| == 0 || r[|r| - 1] != ""
    decreases |pieces|
  {
    if |pieces| > 0 && pieces[|pieces| - 1] == "" then DropTrailingEmpty(pieces[..|pieces| - 1])
    else pieces
  }

  /** String.split(regex) for a regex matching the single character `d`:
      when `d` does not occur the result is the whole string (so "" splits
      into one empty field); otherwise it is every piece between occurrences
      of `d` with the trailing empty pieces removed (so "a,," gives ["a"] and
      "," gives no field at all). */
  function Split(s: string, d: char): (fields: seq<string>)
    ensures forall k :: 0 <= k < |fields| ==> d !in fields[k]
    ensures d !in s ==> fields == [s]
    ensures fields <= SplitAll(s, d)
    ensures forall k :: |fields| <= k < |SplitAll(s, d)| ==> SplitAll(s, d)[k] == ""
    ensures d in s ==> |fields| == 0 || fields[|fields| - 1] != ""
  {
    if d !in s then
      SplitAllPiece(s, d);
      [s]
    else DropTrailingEmpty(SplitAll(s, d))
  }

  /** Split undoes Join for `d`-free pieces whose last piece is not empty. */
  lemma JoinedFields(pieces: seq<string>, d: char)
    requires |pieces| > 0 && pieces[|pieces| - 1] != ""
    requires forall k :: 0 <= k < |pieces| ==> d !in pieces[k]
    ensures Split(Join(pieces, d), d) == pieces
  {
    SplitAllOfJoin(pieces, d);
    var s := Join(pieces, d);
    if d !in s {
      assert |SplitAll(s, d)| == 1;
    }
  }
}
