/**
 * Splitting a string at every occurrence of one separator character, as
 * Rust's `str::split(char)` does: the separators themselves are dropped, two
 * adjacent separators give an empty piece between them, and a string with no
 * separator (the empty string included) gives exactly one piece.
 */
module Strings {

  /** Position of the first occurrence of `d` in `s`. */
  function FirstIndex(s: string, d: char): (k: nat)
    requires d in s
    ensures k < |s| && s[k] == d && d !in s[..k]
  {
    if s[0] == d then 0
    else
      var k := 1 + FirstIndex(s[1..], d);
      assert s[..k] == [s[0]] + s[1..][..k - 1];
      k
  }

  /**
   * The longest prefix of `s` that does not contain `d`: the first piece that
   * `s.split(d)` yields.
   */
  function Before(s: string, d: char): (prefix: string)
    ensures prefix <= s && d !in prefix
    ensures |prefix| == |s| || s[|prefix|] == d
  {
    if d in s then s[..FirstIndex(s, d)] else s
  }

  /** Everything after the first `d` of `s`. */
  function After(s: string, d: char): (rest: string)
    requires d in s
    ensures s == Before(s, d) + [d] + rest
  {
    s[FirstIndex(s, d) + 1..]
  }

  /**
   * The pieces of `s` between occurrences of `d`, in order: one more piece
   * than `s` has separators, and no piece contains a separator.
   */
  function Split(s: string, d: char): (pieces: seq<string>)
    ensures |pieces| == multiset(s)[d] + 1
    ensures forall i :: 0 <= i < |pieces| ==> d !in pieces[i]
    decreases |s|
  {
    if d !in s then
      assert multiset(s)[d] == 0;
      [s]
    else
      var b, a := Before(s, d), After(s, d);
      assert multiset(s) == multiset(b) + multiset{d} + multiset(a);
      assert multiset(b)[d] == 0;
      [b] + Split(a, d)
  }

  /** The pieces glued back together with `d` between neighbours. */
  function Join(pieces: seq<string>, d: char): string
  {
    if |pieces| == 0 then ""
    else if |pieces| == 1 then pieces[0]
    else pieces[0] + [d] + Join(pieces[1..], d)
  }

  /** The first two pieces of a split, in terms of `Before` and `After`. */
  lemma SplitParts(s: string, d: char)
    ensures Split(s, d)[0] == Before(s, d)
    ensures |Split(s, d)| >= 2 <==> d in s
    ensures d in s ==> Split(s, d)[1] == Before(After(s, d), d)
    ensures d in s ==> Split(s, d)[1..] == Split(After(s, d), d)
  {
  }

  /** `Before` and `After` find the separator that follows a separator-free prefix. */
  lemma BeforeAfterOf(p: string, rest: string, d: char)
    requires d !in p
    ensures d in p + [d] + rest
    ensures Before(p + [d] + rest, d) == p
    ensures After(p + [d] + rest, d) == rest
  {
    assert (p + [d] + rest)[..|p|] == p;
  }

  /** Joining the pieces of a split gives back the string that was split. */
  lemma {:induction false} JoinSplit(s: string, d: char)
    ensures Join(Split(s, d), d) == s
    decreases |s|
  {
    if d in s {
      var a := After(s, d);
      JoinSplit(a, d);
      assert Split(s, d) == [Before(s, d)] + Split(a, d);
      assert |Split(a, d)| >= 1;
    }
  }

  /** Splitting what was joined gives back the pieces, when no piece holds `d`. */
  lemma {:induction false} SplitJoin(pieces: seq<string>, d: char)
    requires |pieces| >= 1
    requires forall i :: 0 <= i < |pieces| ==> d !in pieces[i]
    ensures Split(Join(pieces, d), d) == pieces
  {
    if |pieces| > 1 {
      var rest := Join(pieces[1..], d);
      BeforeAfterOf(pieces[0], rest, d);
      SplitJoin(pieces[1..], d);
      assert pieces == [pieces[0]] + pieces[1..];
    }
  }

  /**
   * Every separator of `s` starts a piece: the text after a `d` at position
   * `i`, up to the next `d`, is one of the pieces (never the first).
   */
  lemma {:induction false} PieceAfterSeparator(s: string, d: char, i: nat)
    requires i < |s| && s[i] == d
    ensures exists j :: 1 <= j < |Split(s, d)| && Split(s, d)[j] == Before(s[i + 1..], d)
    decreases |s|
  {
    var b, a := Before(s, d), After(s, d);
    assert s == b + [d] + a;
    SplitParts(s, d);
    if i == |b| {
      assert a == s[i + 1..];
      assert Split(s, d)[1] == Before(s[i + 1..], d);
    } else {
      var i' := i - |b| - 1;
      assert a[i'] == s[i];
      assert a[i' + 1..] == s[i + 1..];
      PieceAfterSeparator(a, d, i');
      var j' :| 1 <= j' < |Split(a, d)| && Split(a, d)[j'] == Before(a[i' + 1..], d);
      assert Split(s, d)[j' + 1] == Split(a, d)[j'];
    }
  }
}
