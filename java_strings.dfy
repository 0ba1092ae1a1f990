/** The few java.lang.String operations the extraction pipeline relies on,
    written as functions over `seq<char>`: `contains`, `replace(target, "")`,
    `trim` and `split` on a one-character separator. */
module JavaStrings {

  /** `pat` occurs in `s` starting at index `i`. */
  predicate OccursAt(s: string, pat: string, i: nat)
  {
    i + |pat| <= |s| && s[i..i + |pat|] == pat
  }

  predicate StartsWith(s: string, pat: string)
  {
    |pat| <= |s| && s[..|pat|] == pat
  }

  /** `s.contains(pat)`: `s` starts with `pat` or its tail contains it. */
  function Contains(s: string, pat: string): bool
    decreases |s|
  {
    StartsWith(s, pat) || (|s| > 0 && Contains(s[1..], pat))
  }

  /** `Contains` finds exactly the occurrences of `pat` at some index of `s`. */
  lemma {:induction false} ContainsOccurs(s: string, pat: string)
    ensures Contains(s, pat) <==> exists i: nat :: OccursAt(s, pat, i)
    decreases |s|
  {
    if StartsWith(s, pat) {
      assert OccursAt(s, pat, 0);
    } else if |s| > 0 {
      ContainsOccurs(s[1..], pat);
      forall i: nat | OccursAt(s[1..], pat, i)
        ensures OccursAt(s, pat, i + 1)
      {
        assert s[1..][i..i + |pat|] == s[i + 1..i + 1 + |pat|];
      }
      forall i: nat | OccursAt(s, pat, i)
        ensures i > 0 && OccursAt(s[1..], pat, i - 1)
      {
        assert s[1..][i - 1..i - 1 + |pat|] == s[i..i + |pat|];
      }
    } else {
      assert forall i: nat :: !OccursAt(s, pat, i);
    }
  }

  /** `s.replace(pat, "")`: every occurrence of `pat` found by a left-to-right
      scan is dropped, the scan resuming after the dropped text (as Java's
      `String.replace` does). Removing characters can produce a new occurrence
      of `pat`, which is kept. */
  function RemoveAll(s: string, pat: string): (r: string)
    requires |pat| > 0
    ensures |r| <= |s|
    decreases |s|
  {
    if StartsWith(s, pat) then
      RemoveAll(s[|pat|..], pat)
    else if |s| == 0 then
      []
    else
      [s[0]] + RemoveAll(s[1..], pat)
  }

  /** Removing shortens the string exactly when there is an occurrence to
      remove, and with none it changes nothing. */
  lemma {:induction false} RemoveAllChanges(s: string, pat: string)
    requires |pat| > 0
    ensures |RemoveAll(s, pat)| == |s| <==> !Contains(s, pat)
    ensures !Contains(s, pat) ==> RemoveAll(s, pat) == s
    decreases |s|
  {
    if StartsWith(s, pat) {
      assert |RemoveAll(s, pat)| <= |s| - |pat|;
    } else if |s| > 0 {
      RemoveAllChanges(s[1..], pat);
      assert [s[0]] + s[1..] == s;
    }
  }

  /** No character of `a` occurs in `b`. */
  predicate NoCommonChar(a: string, b: string)
    decreases |b|
  {
    |b| == 0 || (b[0] !in a && NoCommonChar(a, b[1..]))
  }

  lemma {:induction false} NoCommonCharAt(a: string, b: string)
    requires forall j :: 0 <= j < |b| ==> b[j] !in a
    ensures NoCommonChar(a, b)
    decreases |b|
  {
    if |b| > 0 {
      assert forall j :: 0 <= j < |b[1..]| ==> b[1..][j] == b[j + 1];
      NoCommonCharAt(a, b[1..]);
    }
  }

  /** Text that shares no character with `pat` passes through removal unchanged. */
  lemma {:induction false} RemoveAllBefore(q: string, y: string, pat: string)
    requires |pat| > 0 && NoCommonChar(pat, q)
    ensures RemoveAll(q + y, pat) == q + RemoveAll(y, pat)
    decreases |q|
  {
    if |q| > 0 {
      var s := q + y;
      assert s[0] == q[0] && pat[0] != q[0];
      assert !StartsWith(s, pat) by {
        if |pat| <= |s| {
          assert s[..|pat|][0] != pat[0];
        }
      }
      assert s[1..] == q[1..] + y;
      RemoveAllBefore(q[1..], y, pat);
      assert [q[0]] + q[1..] == q;
    } else {
      assert q + y == y;
    }
  }

  /** An occurrence of `pat` at the front of `x + q + y` lies inside `x` when
      `q` shares no character with `pat`. */
  lemma StartsWithInside(x: string, q: string, y: string, pat: string)
    requires |q| > 0 && NoCommonChar(pat, q)
    ensures StartsWith(x + q + y, pat) <==> |pat| <= |x| && StartsWith(x, pat)
  {
    var s := x + q + y;
    if |x| < |pat| <= |s| {
      assert s[..|pat|][|x|] == q[0];
      assert pat[|x|] in pat;
    }
    if |pat| <= |x| {
      assert s[..|pat|] == x[..|pat|];
    }
  }

  lemma AppendAssoc<T>(a: seq<T>, b: seq<T>, c: seq<T>)
    ensures (a + b) + c == a + (b + c)
  {
  }

  /** Removing `pat` from `x + q + y` removes it from `x` and `y` separately
      when `q` shares no character with `pat`: no occurrence can overlap `q`. */
  lemma {:induction false} RemoveAllAround(x: string, q: string, y: string, pat: string)
    requires |pat| > 0 && |q| > 0 && NoCommonChar(pat, q)
    ensures RemoveAll(x + q + y, pat) == RemoveAll(x, pat) + q + RemoveAll(y, pat)
    decreases |x|
  {
    var s := x + q + y;
    if |x| == 0 {
      assert s == q + y;
      RemoveAllBefore(q, y, pat);
    } else {
      StartsWithInside(x, q, y, pat);
      if StartsWith(s, pat) {
        var rest := x[|pat|..];
        assert s[|pat|..] == rest + q + y;
        RemoveAllAround(rest, q, y, pat);
      } else {
        var rest := x[1..];
        assert s[1..] == rest + q + y;
        RemoveAllAround(rest, q, y, pat);
        assert RemoveAll(s, pat) == [x[0]] + (RemoveAll(rest, pat) + q + RemoveAll(y, pat));
        AppendAssoc([x[0]], RemoveAll(rest, pat) + q, RemoveAll(y, pat));
        AppendAssoc([x[0]], RemoveAll(rest, pat), q);
      }
    }
  }

  /** Removing `pat` keeps every occurrence of a text that shares no character with it. */
  lemma RemoveAllKeeps(s: string, q: string, pat: string)
    requires |pat| > 0 && |q| > 0 && NoCommonChar(pat, q)
    requires Contains(s, q)
    ensures Contains(RemoveAll(s, pat), q)
  {
    ContainsOccurs(s, q);
    var i: nat :| OccursAt(s, q, i);
    assert s == s[..i] + q + s[i + |q|..];
    RemoveAllAround(s[..i], q, s[i + |q|..], pat);
    assert OccursAt(RemoveAll(s, pat), q, |RemoveAll(s[..i], pat)|);
    ContainsOccurs(RemoveAll(s, pat), q);
  }

  /** A character `String.trim` strips: any code point up to and including the space. */
  predicate IsTrimmed(c: char)
  {
    c <= ' '
  }

  function TrimLeading(s: string): string
    decreases |s|
  {
    if |s| > 0 && IsTrimmed(s[0]) then TrimLeading(s[1..]) else s
  }

  function TrimTrailing(s: string): string
    decreases |s|
  {
    if |s| > 0 && IsTrimmed(s[|s| - 1]) then TrimTrailing(s[..|s| - 1]) else s
  }

  /** `s.trim()`: strip from the front, then from the back. */
  function Trim(s: string): string
  {
    TrimTrailing(TrimLeading(s))
  }

  /** Stripping the front leaves a suffix that starts with a kept character,
      and everything stripped is a character up to the space. */
  lemma {:induction false} TrimLeadingSuffix(s: string)
    ensures |TrimLeading(s)| <= |s| && TrimLeading(s) == s[|s| - |TrimLeading(s)|..]
    ensures forall k :: 0 <= k < |s| - |TrimLeading(s)| ==> IsTrimmed(s[k])
    ensures |TrimLeading(s)| > 0 ==> !IsTrimmed(TrimLeading(s)[0])
    decreases |s|
  {
    if |s| > 0 && IsTrimmed(s[0]) {
      TrimLeadingSuffix(s[1..]);
    }
  }

  /** Stripping the back leaves a prefix that ends with a kept character,
      and everything stripped is a character up to the space. */
  lemma {:induction false} TrimTrailingPrefix(s: string)
    ensures |TrimTrailing(s)| <= |s| && TrimTrailing(s) == s[..|TrimTrailing(s)|]
    ensures forall k :: |TrimTrailing(s)| <= k < |s| ==> IsTrimmed(s[k])
    ensures |TrimTrailing(s)| > 0 ==> !IsTrimmed(TrimTrailing(s)[|TrimTrailing(s)| - 1])
    decreases |s|
  {
    if |s| > 0 && IsTrimmed(s[|s| - 1]) {
      TrimTrailingPrefix(s[..|s| - 1]);
    }
  }

  /** The trim is an infix of `s` that neither starts nor ends with a
      character up to the space, and only such characters were cut off. */
  lemma TrimInfix(s: string)
    ensures |Trim(s)| <= |s|
    ensures |Trim(s)| > 0 ==> !IsTrimmed(Trim(s)[0]) && !IsTrimmed(Trim(s)[|Trim(s)| - 1])
    ensures exists i: nat :: OccursAt(s, Trim(s), i)
                             && (forall k :: 0 <= k < i ==> IsTrimmed(s[k]))
                             && (forall k :: i + |Trim(s)| <= k < |s| ==> IsTrimmed(s[k]))
  {
    var lead := TrimLeading(s);
    TrimLeadingSuffix(s);
    TrimTrailingPrefix(lead);
    var r := TrimTrailing(lead);
    var i: nat := |s| - |lead|;
    forall k | i <= k < |s|
      ensures s[k] == lead[k - i]
    {
    }
    assert OccursAt(s, r, i);
  }

  /** An occurrence that starts with a kept character survives stripping the front, shifted left. */
  lemma TrimLeadingKeeps(s: string, q: string, i: nat)
    requires |q| > 0 && !IsTrimmed(q[0]) && OccursAt(s, q, i)
    ensures |s| - |TrimLeading(s)| <= i
    ensures OccursAt(TrimLeading(s), q, i - (|s| - |TrimLeading(s)|))
  {
    TrimLeadingSuffix(s);
    var lead := TrimLeading(s);
    var a := |s| - |lead|;
    assert s[i] == q[0];
    assert lead[i - a..i - a + |q|] == s[i..i + |q|];
  }

  /** An occurrence that ends with a kept character survives stripping the back, in place. */
  lemma TrimTrailingKeeps(s: string, q: string, i: nat)
    requires |q| > 0 && !IsTrimmed(q[|q| - 1]) && OccursAt(s, q, i)
    ensures OccursAt(TrimTrailing(s), q, i)
  {
    TrimTrailingPrefix(s);
    var r := TrimTrailing(s);
    assert s[i + |q| - 1] == q[|q| - 1];
    assert i + |q| <= |r|;
    assert r[i..i + |q|] == s[i..i + |q|];
  }

  /** An occurrence of `q` survives trimming when `q` starts and ends with kept characters. */
  lemma TrimKeeps(s: string, q: string)
    requires |q| > 0 && !IsTrimmed(q[0]) && !IsTrimmed(q[|q| - 1])
    requires Contains(s, q)
    ensures Contains(Trim(s), q)
  {
    ContainsOccurs(s, q);
    var i: nat :| OccursAt(s, q, i);
    TrimLeadingKeeps(s, q, i);
    var lead := TrimLeading(s);
    var j: nat := i - (|s| - |lead|);
    TrimTrailingKeeps(lead, q, j);
    ContainsOccurs(Trim(s), q);
  }

  /** A string with nothing to strip is its own trim. */
  lemma TrimClean(s: string)
    requires |s| > 0 ==> !IsTrimmed(s[0]) && !IsTrimmed(s[|s| - 1])
    ensures Trim(s) == s
  {
  }

  /** Trimming twice is trimming once. */
  lemma TrimIdempotent(s: string)
    ensures Trim(Trim(s)) == Trim(s)
  {
    TrimInfix(s);
    TrimClean(Trim(s));
  }

  /** Splits `s` at every `sep`: the pieces between separators, including the
      empty ones, before the trailing-empty rule of Java's `split` applies. */
  function SplitOn(s: string, sep: char): (r: seq<string>)
    ensures |r| >= 1
    decreases |s|
  {
    if |s| == 0 then
      [""]
    else
      var rest := SplitOn(s[1..], sep);
      if s[0] == sep then [""] + rest else [[s[0]] + rest[0]] + rest[1..]
  }

  /** The pieces glued back together with `sep` between neighbours. */
  function Join(parts: seq<string>, sep: char): string
    requires |parts| >= 1
    decreases |parts|
  {
    if |parts| == 1 then parts[0] else parts[0] + [sep] + Join(parts[1..], sep)
  }

  /** The pieces hold no separator, and joining them gives `s` back. */
  lemma {:induction false} SplitOnPieces(s: string, sep: char)
    ensures forall i :: 0 <= i < |SplitOn(s, sep)| ==> sep !in SplitOn(s, sep)[i]
    ensures Join(SplitOn(s, sep), sep) == s
    decreases |s|
  {
    if |s| > 0 {
      SplitOnPieces(s[1..], sep);
      var rest := SplitOn(s[1..], sep);
      if s[0] == sep {
        assert ([""] + rest)[1..] == rest;
      } else {
        var r := [[s[0]] + rest[0]] + rest[1..];
        assert r[1..] == rest[1..];
        assert Join(rest, sep) == rest[0] + (if |rest| == 1 then [] else [sep] + Join(rest[1..], sep));
        assert [s[0]] + s[1..] == s;
      }
    }
  }

  /** Java's `String.split` drops every empty string at the end of the result. */
  function DropTrailingEmpty(parts: seq<string>): seq<string>
    decreases |parts|
  {
    if |parts| > 0 && parts[|parts| - 1] == "" then DropTrailingEmpty(parts[..|parts| - 1]) else parts
  }

  /** Dropping keeps a prefix that does not end in an empty string, and only
      empty strings are dropped. */
  lemma {:induction false} DropTrailingEmptyPrefix(parts: seq<string>)
    ensures |DropTrailingEmpty(parts)| <= |parts|
    ensures DropTrailingEmpty(parts) == parts[..|DropTrailingEmpty(parts)|]
    ensures |DropTrailingEmpty(parts)| > 0 ==> DropTrailingEmpty(parts)[|DropTrailingEmpty(parts)| - 1] != ""
    ensures forall k :: |DropTrailingEmpty(parts)| <= k < |parts| ==> parts[k] == ""
    decreases |parts|
  {
    if |parts| > 0 && parts[|parts| - 1] == "" {
      DropTrailingEmptyPrefix(parts[..|parts| - 1]);
    }
  }

  /** `s.split(sep)` for a one-character, non-metacharacter separator. With no
      match at all the result is `s` itself (so `"".split(":")` is `[""]`);
      otherwise the pieces, without trailing empty ones. */
  function JavaSplit(s: string, sep: char): seq<string>
  {
    if s == "" then [""] else DropTrailingEmpty(SplitOn(s, sep))
  }

  /** Java's split yields pieces free of the separator, at most as many as the
      plain split, and rejoining them loses only trailing separators. */
  lemma JavaSplitPieces(s: string, sep: char)
    ensures |JavaSplit(s, sep)| <= |SplitOn(s, sep)|
    ensures forall i :: 0 <= i < |JavaSplit(s, sep)| ==> sep !in JavaSplit(s, sep)[i]
    ensures JavaSplit(s, sep) == SplitOn(s, sep)[..|JavaSplit(s, sep)|] || s == ""
  {
    SplitOnPieces(s, sep);
    DropTrailingEmptyPrefix(SplitOn(s, sep));
  }

  lemma {:induction false} SplitOnNoSeparator(s: string, sep: char)
    requires sep !in s
    ensures SplitOn(s, sep) == [s]
    decreases |s|
  {
    if |s| > 0 {
      SplitOnNoSeparator(s[1..], sep);
      assert s[0] != sep;
      assert [s[0]] + s[1..] == s;
    }
  }

  lemma {:induction false} SplitOnAfterPiece(a: string, b: string, sep: char)
    requires sep !in a
    ensures SplitOn(a + [sep] + b, sep) == [a] + SplitOn(b, sep)
    decreases |a|
  {
    if |a| == 0 {
      assert a + [sep] + b == [sep] + b;
      assert ([sep] + b)[1..] == b;
    } else {
      assert (a + [sep] + b)[1..] == a[1..] + [sep] + b;
      SplitOnAfterPiece(a[1..], b, sep);
      assert [a[0]] + a[1..] == a;
    }
  }

  /** Splitting undoes joining, for pieces free of the separator. */
  lemma {:induction false} SplitOnJoin(parts: seq<string>, sep: char)
    requires |parts| >= 1
    requires forall i :: 0 <= i < |parts| ==> sep !in parts[i]
    ensures SplitOn(Join(parts, sep), sep) == parts
    decreases |parts|
  {
    if |parts| == 1 {
      SplitOnNoSeparator(parts[0], sep);
    } else {
      SplitOnJoin(parts[1..], sep);
      SplitOnAfterPiece(parts[0], Join(parts[1..], sep), sep);
      assert [parts[0]] + parts[1..] == parts;
    }
  }

  /** Java's `split` undoes joining when the last piece is not empty. */
  lemma JavaSplitJoin(parts: seq<string>, sep: char)
    requires |parts| >= 1 && parts[|parts| - 1] != ""
    requires forall i :: 0 <= i < |parts| ==> sep !in parts[i]
    ensures JavaSplit(Join(parts, sep), sep) == parts
  {
    SplitOnJoin(parts, sep);
    JoinNotEmpty(parts, sep);
  }

  lemma {:induction false} JoinNotEmpty(parts: seq<string>, sep: char)
    requires |parts| >= 1 && parts[|parts| - 1] != ""
    ensures Join(parts, sep) != ""
    decreases |parts|
  {
    if |parts| > 1 {
      JoinNotEmpty(parts[1..], sep);
    }
  }
}
