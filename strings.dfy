/**
 * The PHP string built-ins the font tools rely on, over `seq<char>`:
 * `strtolower` (ASCII), `strrpos` for one character, `substr` from that
 * position, `basename` and `str_replace('\\', '/', ...)`.
 */
module Strings {

  /** `strtolower` on one character: only ASCII `A`..`Z` change. */
  function LowerChar(c: char): char {
    if 'A' <= c <= 'Z' then (c as int + 32) as char else c
  }

  /** `strtolower`: the string with every ASCII upper-case letter lowered. */
  function Lower(s: string): (r: string)
    ensures |r| == |s|
    ensures forall i :: 0 <= i < |s| ==> r[i] == LowerChar(s[i])
    ensures forall i :: 0 <= i < |s| ==> !('A' <= r[i] <= 'Z')
  {
    if s == [] then [] else [LowerChar(s[0])] + Lower(s[1..])
  }

  /** Lowering twice is lowering once. */
  lemma LowerIdempotent(s: string)
    ensures Lower(Lower(s)) == Lower(s)
  {
    var l := Lower(s);
    assert forall i :: 0 <= i < |l| ==> LowerChar(l[i]) == l[i];
  }

  /** `strrpos($s, $c)`: the position of the last `c` in `s`, or -1 for PHP's `false`. */
  function LastIndexOf(s: string, c: char): (r: int)
    ensures -1 <= r < |s|
  {
    if s == [] then -1
    else if s[|s| - 1] == c then |s| - 1
    else LastIndexOf(s[..|s| - 1], c)
  }

  /** The position found holds `c` and no later position does; -1 means `c` does not occur. */
  lemma {:induction false} LastIndexOfSpec(s: string, c: char)
    ensures var r := LastIndexOf(s, c);
            (r >= 0 ==> s[r] == c) && (forall j :: r < j < |s| ==> s[j] != c)
  {
    if s != [] && s[|s| - 1] != c {
      var init := s[..|s| - 1];
      LastIndexOfSpec(init, c);
      assert forall j :: 0 <= j < |init| ==> init[j] == s[j];
    }
  }

  /**
   * `substr($f, strrpos($f, '.'))`: the file-type suffix of a filename, from
   * its last '.' inclusive. With no '.', `strrpos` gives `false`, which
   * `substr` reads as offset 0, so the whole filename comes back.
   */
  function Suffix(f: string): string
  {
    var i := LastIndexOf(f, '.');
    if i < 0 then f else f[i..]
  }

  /** The suffix ends `f`; it starts at a '.' and holds no other one, or is all of `f` when `f` has no '.'. */
  lemma SuffixShape(f: string)
    ensures var r := Suffix(f);
            |r| <= |f| && f[|f| - |r|..] == r &&
            ('.' in f ==> |r| > 0 && r[0] == '.' && '.' !in r[1..]) &&
            ('.' !in f ==> r == f)
  {
    var i := LastIndexOf(f, '.');
    LastIndexOfSpec(f, '.');
    if i >= 0 {
      var rest := f[i + 1..];
      forall x | x in rest ensures x != '.' {
        var j :| 0 <= j < |rest| && rest[j] == x;
        assert rest[j] == f[i + 1 + j];
      }
      assert f[i..][1..] == rest;
    } else {
      assert '.' !in f by {
        forall j | 0 <= j < |f| ensures f[j] != '.' { }
      }
    }
  }

  /** The last occurrence is found where it is. */
  lemma LastIndexOfAt(s: string, c: char, i: nat)
    requires i < |s| && s[i] == c
    requires forall j :: i < j < |s| ==> s[j] != c
    ensures LastIndexOf(s, c) == i
  {
    LastIndexOfSpec(s, c);
  }

  /** A string without `c` gives -1 (PHP's `false`). */
  lemma LastIndexOfAbsent(s: string, c: char)
    requires c !in s
    ensures LastIndexOf(s, c) == -1
  {
    LastIndexOfSpec(s, c);
  }

  /** `basename($p)`: the text after the last '/'. */
  function Basename(p: string): string
  {
    p[LastIndexOf(p, '/') + 1..]
  }

  /** The base name ends `p`, holds no '/', and is all of `p` or follows a '/'. */
  lemma BasenameShape(p: string)
    ensures var r := Basename(p);
            |r| <= |p| && p[|p| - |r|..] == r && '/' !in r &&
            (|r| < |p| ==> p[|p| - |r| - 1] == '/')
  {
    var i := LastIndexOf(p, '/');
    LastIndexOfSpec(p, '/');
    var r := p[i + 1..];
    assert |p| - |r| == i + 1;
    forall x | x in r ensures x != '/' {
      var j :| 0 <= j < |r| && r[j] == x;
      assert r[j] == p[i + 1 + j];
    }
  }

  /**
   * `substr($s, -strlen($t)) === $t`: `t` is a suffix of `s`. (When `t` is
   * longer than `s`, `substr` returns all of `s`, which cannot equal `t`.)
   * For an empty `t` and a non-empty `s` the two differ: `substr($s, -0)` is
   * all of `s`, so PHP says no where this says yes. Where `fontMap` uses the
   * test the outcome is the same, since for an empty type PHP then appends
   * the empty string.
   */
  predicate EndsWith(s: string, t: string) {
    |t| <= |s| && s[|s| - |t|..] == t
  }

  /** Appending `t` always gives a string that ends with `t`. */
  lemma EndsWithAppend(s: string, t: string)
    ensures EndsWith(s + t, t)
  {
    assert (s + t)[|s|..] == t;
  }

  /** `str_replace('\\', '/', $s)`: every backslash becomes a forward slash. */
  function ForwardSlashes(s: string): (r: string)
    ensures |r| == |s|
    ensures forall i :: 0 <= i < |s| ==> r[i] == (if s[i] == '\\' then '/' else s[i])
    ensures '\\' !in r
  {
    if s == [] then [] else [if s[0] == '\\' then '/' else s[0]] + ForwardSlashes(s[1..])
  }
}
