/**
 * The PHP string and array built-ins the sort layer relies on, modelled on
 * `seq<char>`: `trim`, `ltrim($s, '-')`, `empty()` on a string, `explode`,
 * `implode` and `str_replace`.  Comparison is plain string equality.
 */
module Php {

  /** The characters PHP's `trim` removes by default: " \t\n\r\0\x0B". */
  predicate IsTrimChar(c: char) {
    c == ' ' || c == '\t' || c == '\n' || c == '\r' || c == '\0' || c == '\U{000B}'
  }

  /** `empty($s)` for a string: true for "" and for "0". */
  predicate IsEmpty(s: string) {
    s == "" || s == "0"
  }

  predicate StartsWithDash(s: string) {
    |s| > 0 && s[0] == '-'
  }

  /** `t` occurs in `s` starting at offset `k`. */
  predicate InfixAt(s: string, t: string, k: int) {
    0 <= k && k + |t| <= |s| && s[k..k + |t|] == t
  }

  predicate Occurs(t: string, s: string) {
    exists k :: 0 <= k <= |s| && InfixAt(s, t, k)
  }

  /** Leading trim characters removed. */
  function TrimLeft(s: string): (r: string)
    ensures |r| <= |s|
    ensures r == [] || !IsTrimChar(r[0])
  {
    if s != [] && IsTrimChar(s[0]) then TrimLeft(s[1..]) else s
  }

  /** What `TrimLeft` keeps is a suffix of `s`; what it drops are trim characters. */
  lemma {:induction false} TrimLeftSuffix(s: string)
    ensures TrimLeft(s) == s[|s| - |TrimLeft(s)|..]
    ensures forall k :: 0 <= k < |s| - |TrimLeft(s)| ==> IsTrimChar(s[k])
  {
    if s != [] && IsTrimChar(s[0]) {
      TrimLeftSuffix(s[1..]);
      forall k | 1 <= k < |s| - |TrimLeft(s)| ensures IsTrimChar(s[k]) {
        assert s[k] == s[1..][k - 1];
      }
    }
  }

  /** Trailing trim characters removed. */
  function TrimRight(s: string): (r: string)
    ensures |r| <= |s|
    ensures r == [] || !IsTrimChar(r[|r| - 1])
  {
    if s != [] && IsTrimChar(s[|s| - 1]) then TrimRight(s[..|s| - 1]) else s
  }

  /** What `TrimRight` keeps is a prefix of `s`; what it drops are trim characters. */
  lemma {:induction false} TrimRightPrefix(s: string)
    ensures TrimRight(s) == s[..|TrimRight(s)|]
    ensures forall k :: |TrimRight(s)| <= k < |s| ==> IsTrimChar(s[k])
  {
    if s != [] && IsTrimChar(s[|s| - 1]) {
      TrimRightPrefix(s[..|s| - 1]);
    }
  }

  /** `trim($s)`: trim characters stripped from both ends. */
  function Trim(s: string): (r: string)
    ensures r == [] || (!IsTrimChar(r[0]) && !IsTrimChar(r[|r| - 1]))
  {
    TrimRightPrefix(TrimLeft(s));
    TrimRight(TrimLeft(s))
  }

  /**
   * What `trim` leaves is the infix of `s` that remains once the trim
   * characters on both ends are taken away.
   */
  lemma TrimIsInfix(s: string)
    ensures exists k ::
              && InfixAt(s, Trim(s), k)
              && (forall j :: 0 <= j < k ==> IsTrimChar(s[j]))
              && (forall j :: k + |Trim(s)| <= j < |s| ==> IsTrimChar(s[j]))
  {
    var l := TrimLeft(s);
    var r := TrimRight(l);
    TrimLeftSuffix(s);
    TrimRightPrefix(l);
    var k := |s| - |l|;
    assert InfixAt(s, r, k) by {
      assert s[k..k + |r|] == l[..|r|];
    }
    forall j | k + |r| <= j < |s| ensures IsTrimChar(s[j]) {
      assert s[j] == l[j - k];
    }
    assert r == Trim(s);
    assert forall j :: 0 <= j < k ==> IsTrimChar(s[j]);
  }

  /** A trimmed string is left alone by a second `trim`. */
  lemma TrimIdempotent(s: string)
    ensures Trim(Trim(s)) == Trim(s)
  {
  }

  /** `ltrim($s, '-')`: every leading '-' removed, the rest kept. */
  function StripDashes(s: string): (r: string)
    ensures |r| <= |s|
    ensures !StartsWithDash(r)
  {
    if StartsWithDash(s) then StripDashes(s[1..]) else s
  }

  /** What `ltrim($s, '-')` keeps is a suffix of `s`; what it drops are dashes. */
  lemma {:induction false} StripDashesSuffix(s: string)
    ensures StripDashes(s) == s[|s| - |StripDashes(s)|..]
    ensures forall k :: 0 <= k < |s| - |StripDashes(s)| ==> s[k] == '-'
  {
    if StartsWithDash(s) {
      StripDashesSuffix(s[1..]);
      forall k | 1 <= k < |s| - |StripDashes(s)| ensures s[k] == '-' {
        assert s[k] == s[1..][k - 1];
      }
    }
  }

  /** `implode($glue, $pieces)`. */
  function Implode(glue: string, pieces: seq<string>): string
  {
    if |pieces| == 0 then ""
    else if |pieces| == 1 then pieces[0]
    else pieces[0] + glue + Implode(glue, pieces[1..])
  }

  /**
   * `explode($delim, $s)` for a one-character delimiter: the pieces between
   * delimiters, empty pieces included; never an empty list.
   */
  function Explode(delim: char, s: string): (pieces: seq<string>)
    ensures |pieces| >= 1
    ensures forall i :: 0 <= i < |pieces| ==> delim !in pieces[i]
  {
    if s == [] then [""]
    else
      var rest := Explode(delim, s[1..]);
      if s[0] == delim then [""] + rest
      else [[s[0]] + rest[0]] + rest[1..]
  }

  /** Gluing the pieces back with the delimiter gives the original string. */
  lemma {:induction false} ImplodeExplode(delim: char, s: string)
    ensures Implode([delim], Explode(delim, s)) == s
  {
    if s != [] {
      var rest := Explode(delim, s[1..]);
      ImplodeExplode(delim, s[1..]);
      if s[0] == delim {
        assert Explode(delim, s) == [""] + rest;
        assert ([""] + rest)[1..] == rest;
        assert s == [s[0]] + s[1..];
      } else {
        var pieces := [[s[0]] + rest[0]] + rest[1..];
        assert Explode(delim, s) == pieces;
        if |rest| == 1 {
          assert Implode([delim], pieces) == [s[0]] + rest[0];
        } else {
          assert pieces[1..] == rest[1..];
          assert Implode([delim], pieces) == [s[0]] + (rest[0] + [delim] + Implode([delim], rest[1..]));
        }
        assert s == [s[0]] + s[1..];
      }
    }
  }

  /** Exploding a piece free of the delimiter, followed by one, splits it off. */
  lemma {:induction false} ExplodePrefix(delim: char, p: string, t: string)
    requires delim !in p
    ensures Explode(delim, p + [delim] + t) == [p] + Explode(delim, t)
    ensures Explode(delim, p) == [p]
  {
    if p != [] {
      ExplodePrefix(delim, p[1..], t);
      assert (p + [delim] + t)[1..] == p[1..] + [delim] + t;
      assert [p[0]] + p[1..] == p;
    } else {
      assert (p + [delim] + t)[1..] == t;
    }
  }

  /**
   * The converse round trip: pieces that hold no delimiter are recovered by
   * exploding their implosion.
   */
  lemma {:induction false} ExplodeImplode(delim: char, pieces: seq<string>)
    requires |pieces| >= 1
    requires forall i :: 0 <= i < |pieces| ==> delim !in pieces[i]
    ensures Explode(delim, Implode([delim], pieces)) == pieces
  {
    if |pieces| == 1 {
      ExplodePrefix(delim, pieces[0], "");
    } else {
      ExplodeImplode(delim, pieces[1..]);
      ExplodePrefix(delim, pieces[0], Implode([delim], pieces[1..]));
      assert [pieces[0]] + pieces[1..] == pieces;
    }
  }

  lemma InfixShift(s: string, t: string, k: int, p: string, q: string)
    requires InfixAt(s, t, k)
    ensures InfixAt(p + s + q, t, |p| + k)
  {
    assert (p + s + q)[|p| + k..|p| + k + |t|] == s[k..k + |t|];
  }

  /** Every piece occurs in the imploded string. */
  lemma {:induction false} ImplodeContains(glue: string, pieces: seq<string>, i: int)
    requires 0 <= i < |pieces|
    ensures Occurs(pieces[i], Implode(glue, pieces))
  {
    if |pieces| == 1 {
      assert InfixAt(pieces[0], pieces[0], 0);
    } else if i == 0 {
      assert InfixAt(pieces[0], pieces[0], 0);
      InfixShift(pieces[0], pieces[0], 0, "", glue + Implode(glue, pieces[1..]));
      assert "" + pieces[0] + (glue + Implode(glue, pieces[1..])) == Implode(glue, pieces);
    } else {
      ImplodeContains(glue, pieces[1..], i - 1);
      var rest := Implode(glue, pieces[1..]);
      var k :| InfixAt(rest, pieces[i], k);
      InfixShift(rest, pieces[i], k, pieces[0] + glue, "");
      assert pieces[0] + glue + rest + "" == Implode(glue, pieces);
    }
  }

  /**
   * `str_replace($search, $replace, $subject)`: every non-overlapping
   * occurrence of `search`, scanning left to right, replaced; the
   * replacement text is not scanned again.  An empty `search` changes nothing.
   */
  function StrReplace(search: string, replace: string, subject: string): string
    decreases |subject|
  {
    if |search| == 0 || |subject| < |search| then subject
    else if subject[..|search|] == search then replace + StrReplace(search, replace, subject[|search|..])
    else [subject[0]] + StrReplace(search, replace, subject[1..])
  }

  /** A prefix that cannot start a match is copied through unchanged. */
  lemma {:induction false} StrReplaceSkips(search: string, replace: string, p: string, s: string)
    requires |search| > 0
    requires search[0] !in p
    ensures StrReplace(search, replace, p + s) == p + StrReplace(search, replace, s)
  {
    if p != [] {
      StrReplaceSkips(search, replace, p[1..], s);
      assert (p + s)[1..] == p[1..] + s;
      if |p + s| >= |search| {
        assert (p + s)[..|search|][0] == p[0];
      }
      assert [p[0]] + p[1..] == p;
    } else {
      assert p + s == s;
    }
  }
}
