/** The part of Go's `strings` package that the analyzer relies on:
    `strings.Split` on a one-character separator and `strings.Contains`.
    `Join` puts the pieces back together; the lemmas below show that `Join`
    and `Split` undo each other. */
module Strings {
  import opened Wrappers

  /** Position of the first `c` in `s`, or None when `s` has no `c`. */
  function IndexOf(s: string, c: char): (r: Option<nat>)
    ensures r.Some? ==> r.value < |s| && s[r.value] == c && c !in s[..r.value]
    ensures r.None? ==> c !in s
  {
    if |s| == 0 then None
    else if s[0] == c then Some(0)
    else match IndexOf(s[1..], c)
      case None => None
      case Some(k) =>
        assert s[..k + 1] == [s[0]] + s[1..][..k];
        Some(k + 1)
  }

  /** `strings.Split(s, sep)` for a one-character separator: the pieces
      between consecutive separators, so there is always one piece more than
      there are separators, and the empty string splits into one empty piece. */
  function Split(s: string, sep: char): (pieces: seq<string>)
    ensures |pieces| >= 1
    ensures forall i :: 0 <= i < |pieces| ==> sep !in pieces[i]
    decreases |s|
  {
    match IndexOf(s, sep)
    case None => [s]
    case Some(k) => [s[..k]] + Split(s[k + 1..], sep)
  }

  /** `strings.Join(pieces, sep)`: the pieces with one separator between
      each two neighbours. */
  function Join(pieces: seq<string>, sep: char): string
  {
    if |pieces| == 0 then ""
    else if |pieces| == 1 then pieces[0]
    else pieces[0] + [sep] + Join(pieces[1..], sep)
  }

  /** Splitting loses nothing: joining the pieces back gives the input. */
  lemma {:induction false} JoinSplit(s: string, sep: char)
    ensures Join(Split(s, sep), sep) == s
    decreases |s|
  {
    match IndexOf(s, sep)
    case None =>
    case Some(k) =>
      var rest := s[k + 1..];
      var pieces := Split(s, sep);
      JoinSplit(rest, sep);
      assert pieces == [s[..k]] + Split(rest, sep);
      assert pieces[1..] == Split(rest, sep);
      assert Join(pieces, sep) == s[..k] + [sep] + Join(Split(rest, sep), sep);
      assert s == s[..k] + [sep] + rest;
  }

  /** Split undoes Join whenever no piece holds the separator. */
  lemma {:induction false} SplitJoin(pieces: seq<string>, sep: char)
    requires |pieces| >= 1
    requires forall i :: 0 <= i < |pieces| ==> sep !in pieces[i]
    ensures Split(Join(pieces, sep), sep) == pieces
  {
    var p := pieces[0];
    if |pieces| == 1 {
      assert IndexOf(p, sep).None?;
    } else {
      var rest := pieces[1..];
      var s := p + [sep] + Join(rest, sep);
      assert s[|p|] == sep && s[..|p|] == p;
      assert IndexOf(s, sep) == Some(|p|);
      assert s[|p| + 1..] == Join(rest, sep);
      SplitJoin(rest, sep);
    }
  }

  /** `sub` occurs in `s` starting at position `i`. */
  ghost predicate OccursAt(s: string, sub: string, i: int)
  {
    0 <= i && i + |sub| <= |s| && s[i..i + |sub|] == sub
  }

  /** `strings.Contains(s, sub)`: does `sub` occur anywhere in `s`?
      (The empty string occurs in every string.) */
  function Contains(s: string, sub: string): (r: bool)
    ensures r <==> exists i :: OccursAt(s, sub, i)
    decreases |s|
  {
    if sub <= s then
      assert OccursAt(s, sub, 0);
      true
    else if |s| == 0 then false
    else
      var r := Contains(s[1..], sub);
      if r then
        assert exists i :: OccursAt(s, sub, i) by {
          var i :| OccursAt(s[1..], sub, i);
          assert s[i + 1..i + 1 + |sub|] == s[1..][i..i + |sub|];
          assert OccursAt(s, sub, i + 1);
        }
        r
      else
        assert forall i :: OccursAt(s, sub, i) ==> i > 0 && OccursAt(s[1..], sub, i - 1) by {
          forall i | OccursAt(s, sub, i) ensures i > 0 && OccursAt(s[1..], sub, i - 1) {
            assert s[1..][i - 1..i - 1 + |sub|] == s[i..i + |sub|];
          }
        }
        r
  }

  /** A separator-free `sub` occurs in `a + sep + b` exactly when it occurs in
      `a` or in `b`: no occurrence can straddle the separator. */
  lemma ContainsAroundSeparator(a: string, b: string, sep: char, sub: string)
    requires sep !in sub
    ensures Contains(a + [sep] + b, sub) <==> Contains(a, sub) || Contains(b, sub)
  {
    var s := a + [sep] + b;
    if Contains(a, sub) {
      var i :| OccursAt(a, sub, i);
      OccursAtShift(a, sep, b, sub, i);
    }
    if Contains(b, sub) {
      var i :| OccursAt(b, sub, i);
      OccursAtShift(a, sep, b, sub, |a| + 1 + i);
    }
    if Contains(s, sub) {
      var i :| OccursAt(s, sub, i);
      OccursAtShift(a, sep, b, sub, i);
    }
  }

  /** An occurrence in `a + sep + b` of a separator-free `sub` is an occurrence
      in `a` or in `b`, at the corresponding position, and conversely. */
  lemma OccursAtShift(a: string, sep: char, b: string, sub: string, i: int)
    requires sep !in sub
    ensures i + |sub| <= |a| ==> (OccursAt(a + [sep] + b, sub, i) <==> OccursAt(a, sub, i))
    ensures i > |a| ==> (OccursAt(a + [sep] + b, sub, i) <==> OccursAt(b, sub, i - |a| - 1))
    ensures i <= |a| < i + |sub| ==> !OccursAt(a + [sep] + b, sub, i)
  {
    var s := a + [sep] + b;
    if 0 <= i && i + |sub| <= |a| {
      assert s[i..i + |sub|] == a[i..i + |sub|];
    } else if i > |a| && i + |sub| <= |s| {
      assert s[i..i + |sub|] == b[i - |a| - 1..i - |a| - 1 + |sub|];
    } else if 0 <= i <= |a| < i + |sub| <= |s| {
      assert s[i..i + |sub|][|a| - i] == sep;
    }
  }

  /** One step of `Split`: the piece before the first separator, then the
      pieces of what follows it. */
  lemma SplitAtFirst(s: string, sep: char, k: nat)
    requires IndexOf(s, sep) == Some(k)
    ensures Split(s, sep) == [s[..k]] + Split(s[k + 1..], sep)
    ensures s == s[..k] + [sep] + s[k + 1..]
  {
  }

  /** A separator-free `sub` occurs in `s` exactly when it occurs in one of
      the pieces `Split(s, sep)` produces. */
  lemma {:induction false} ContainsInSomePiece(s: string, sep: char, sub: string)
    requires sep !in sub
    ensures Contains(s, sub) <==>
              exists j :: 0 <= j < |Split(s, sep)| && Contains(Split(s, sep)[j], sub)
    decreases |s|
  {
    match IndexOf(s, sep)
    case None =>
      assert Split(s, sep)[0] == s;
    case Some(k) =>
      var a, b := s[..k], s[k + 1..];
      var pieces, rest := Split(s, sep), Split(b, sep);
      SplitAtFirst(s, sep, k);
      ContainsAroundSeparator(a, b, sep, sub);
      ContainsInSomePiece(b, sep, sub);
      assert pieces[0] == a;
      assert forall j :: 0 <= j < |rest| ==> pieces[j + 1] == rest[j];
      if Contains(b, sub) {
        var j :| 0 <= j < |rest| && Contains(rest[j], sub);
        assert Contains(pieces[j + 1], sub);
      }
      forall j | 0 < j < |pieces| && Contains(pieces[j], sub) ensures Contains(b, sub) {
        assert rest[j - 1] == pieces[j];
      }
  }
}
