/** The string operations of the Swift 1 standard library and of Foundation that
    the request decoder relies on: `split` with a one-character predicate (and its
    default `allowEmptySlices: false`), `lowercaseString`, and trimming with the
    whitespace-and-newline character set. */
module Strings {
  import opened Sequences

  /** Index of the first occurrence of `c` in `s`, or `|s|` when there is none. */
  function IndexOf(s: string, c: char): (k: nat)
    ensures k <= |s|
    ensures forall j :: 0 <= j < k ==> s[j] != c
    ensures k < |s| ==> s[k] == c
  {
    if s == [] || s[0] == c then 0 else 1 + IndexOf(s[1..], c)
  }

  /** `s` with every occurrence of `c` removed. */
  function Without(s: string, c: char): string
  {
    if s == [] then [] else (if s[0] == c then [] else [s[0]]) + Without(s[1..], c)
  }

  lemma {:induction false} WithoutConcat(a: string, b: string, c: char)
    ensures Without(a + b, c) == Without(a, c) + Without(b, c)
  {
    if a == [] {
      assert a + b == b;
    } else {
      assert (a + b)[0] == a[0];
      assert (a + b)[1..] == a[1..] + b;
      WithoutConcat(a[1..], b, c);
    }
  }

  lemma {:induction false} WithoutAbsent(s: string, c: char)
    requires forall j :: 0 <= j < |s| ==> s[j] != c
    ensures Without(s, c) == s
  {
    if s != [] {
      WithoutAbsent(s[1..], c);
    }
  }

  /** The concatenation of all pieces. */
  function Flatten(pieces: seq<string>): string
  {
    if pieces == [] then [] else pieces[0] + Flatten(pieces[1..])
  }

  /** Swift 1 `split(s, { $0 == sep })`: the maximal non-empty runs of characters
      other than `sep`, in order. Runs of several separators, and separators at
      either end, produce no empty pieces. */
  function Split(s: string, sep: char): (pieces: seq<string>)
    ensures forall i :: 0 <= i < |pieces| ==> pieces[i] != [] && sep !in pieces[i]
    ensures Flatten(pieces) == Without(s, sep)
    decreases |s|
  {
    if s == [] then []
    else if s[0] == sep then Split(s[1..], sep)
    else
      var k := IndexOf(s, sep);
      var rest := Split(s[k..], sep);
      assert s == s[..k] + s[k..];
      assert sep !in s[..k] by {
        forall j | 0 <= j < k ensures s[..k][j] != sep { }
      }
      WithoutConcat(s[..k], s[k..], sep);
      WithoutAbsent(s[..k], sep);
      assert ([s[..k]] + rest)[1..] == rest;
      [s[..k]] + rest
  }

  /** The pieces with one `sep` between neighbours. */
  function Join(pieces: seq<string>, sep: char): string
  {
    if pieces == [] then []
    else if |pieces| == 1 then pieces[0]
    else pieces[0] + [sep] + Join(pieces[1..], sep)
  }

  /** Splitting undoes joining whenever the pieces are non-empty and free of the
      separator. */
  lemma {:induction false} SplitJoin(pieces: seq<string>, sep: char)
    requires forall i :: 0 <= i < |pieces| ==> pieces[i] != [] && sep !in pieces[i]
    ensures Split(Join(pieces, sep), sep) == pieces
  {
    if pieces != [] {
      var t := pieces[0];
      if |pieces| == 1 {
        assert Join(pieces, sep) == t + [];
        SplitAt(t, [], sep);
      } else {
        var rest := Join(pieces[1..], sep);
        assert Join(pieces, sep) == t + ([sep] + rest);
        SplitAt(t, [sep] + rest, sep);
        SplitLeadingSeparator(rest, sep);
        SplitJoin(pieces[1..], sep);
        assert pieces == [t] + pieces[1..];
      }
    }
  }

  /** Two non-empty separator-free texts with two separators between them split
      into just those two texts. */
  lemma SplitDoubledPair(a: string, b: string, sep: char)
    requires a != [] && b != [] && sep !in a && sep !in b
    ensures Split(a + [sep, sep] + b, sep) == [a, b]
  {
    var t := [sep] + ([sep] + b);
    assert a + [sep, sep] + b == a + t;
    assert Split(a + t, sep) == [a] + Split(t, sep) by {
      SplitAt(a, t, sep);
    }
    assert Split(t, sep) == Split(b, sep) by {
      SplitLeadingSeparator([sep] + b, sep);
      SplitLeadingSeparator(b, sep);
    }
    assert Split(b, sep) == [b] by {
      assert b + [] == b;
      SplitAt(b, [], sep);
    }
  }

  /** The first occurrence is the only index with no occurrence before it and an
      occurrence at it (or the end). */
  lemma IndexOfUnique(s: string, c: char, j: nat)
    requires j <= |s| && (j < |s| ==> s[j] == c)
    requires forall i :: 0 <= i < j ==> s[i] != c
    ensures IndexOf(s, c) == j
  {
  }

  /** A separator-free piece followed by nothing or by a separator is split off
      whole. */
  lemma SplitAt(a: string, t: string, sep: char)
    requires a != [] && sep !in a
    requires t == [] || t[0] == sep
    ensures Split(a + t, sep) == [a] + Split(t, sep)
  {
    var s := a + t;
    assert s[0] == a[0];
    forall i | 0 <= i < |a| ensures s[i] != sep {
      assert s[i] == a[i];
    }
    IndexOfUnique(s, sep, |a|);
    assert s[..|a|] == a && s[|a|..] == t;
  }

  /** The first piece of a string that does not start with the separator: the
      run before the first separator, which is non-empty and separator-free. */
  lemma FirstPiece(a: string, sep: char)
    requires a != [] && a[0] != sep
    ensures var k := IndexOf(a, sep);
      0 < k && sep !in a[..k] && (a[k..] == [] || a[k..][0] == sep)
  {
    var k := IndexOf(a, sep);
    forall j | 0 <= j < k ensures a[..k][j] != sep { }
  }

  /** Splitting a string that does not start with the separator yields its first
      piece, then the pieces of the rest from the first separator on. */
  lemma SplitFirst(a: string, x: string, sep: char)
    requires a != [] && a[0] != sep
    requires x == [] || x[0] == sep
    ensures var k := IndexOf(a, sep);
      0 < k && |a[k..]| < |a| && Split(a + x, sep) == [a[..k]] + Split(a[k..] + x, sep)
  {
    var k := IndexOf(a, sep);
    FirstPiece(a, sep);
    CutBefore(a, x, k);
    FirstOfConcat(a[k..], x);
    SplitAt(a[..k], a[k..] + x, sep);
  }


  /** A separator at the start yields no piece. */
  lemma SplitLeadingSeparator(s: string, sep: char)
    ensures Split([sep] + s, sep) == Split(s, sep)
  {
    assert ([sep] + s)[1..] == s;
  }

  /** A separator at the end yields no piece. */
  lemma {:induction false} SplitTrailingSeparator(s: string, sep: char)
    ensures Split(s + [sep], sep) == Split(s, sep)
    decreases |s|
  {
    if s == [] {
      assert Split([sep], sep) == Split([], sep) by {
        SplitLeadingSeparator([], sep);
        assert [sep] + [] == [sep];
      }
    } else if s[0] == sep {
      assert s + [sep] == [sep] + (s[1..] + [sep]);
      SplitLeadingSeparator(s[1..] + [sep], sep);
      SplitTrailingSeparator(s[1..], sep);
      assert s == [sep] + s[1..];
      SplitLeadingSeparator(s[1..], sep);
    } else {
      var k := IndexOf(s, sep);
      SplitFirst(s, [sep], sep);
      SplitFirst(s, [], sep);
      assert s + [] == s;
      assert s[k..] + [] == s[k..];
      SplitTrailingSeparator(s[k..], sep);
    }
  }

  /** Two separators in a row split like one: the empty piece between them is
      dropped. */
  lemma {:induction false} SplitDoubledSeparator(a: string, b: string, sep: char)
    ensures Split(a + [sep, sep] + b, sep) == Split(a + [sep] + b, sep)
    decreases |a|
  {
    if a == [] {
      assert a + [sep, sep] + b == [sep] + ([sep] + b);
      assert a + [sep] + b == [sep] + b;
      SplitLeadingSeparator([sep] + b, sep);
    } else if a[0] == sep {
      assert a + [sep, sep] + b == [sep] + (a[1..] + [sep, sep] + b);
      assert a + [sep] + b == [sep] + (a[1..] + [sep] + b);
      SplitLeadingSeparator(a[1..] + [sep, sep] + b, sep);
      SplitLeadingSeparator(a[1..] + [sep] + b, sep);
      SplitDoubledSeparator(a[1..], b, sep);
    } else {
      var k := IndexOf(a, sep);
      var x2 := [sep, sep] + b;
      var x1 := [sep] + b;
      assert a + [sep, sep] + b == a + x2 && a[k..] + [sep, sep] + b == a[k..] + x2;
      assert a + [sep] + b == a + x1 && a[k..] + [sep] + b == a[k..] + x1;
      SplitFirst(a, x2, sep);
      SplitFirst(a, x1, sep);
      SplitDoubledSeparator(a[k..], b, sep);
    }
  }

  /** Upper-case letters of Latin-1 (U+0000 to U+00FF), the only code points the
      line reader ever produces: A to Z and U+00C0 to U+00DE except U+00D7. */
  predicate IsUpper(c: char)
  {
    ('A' <= c <= 'Z') || ('\U{C0}' <= c <= '\U{DE}' && c != '\U{D7}')
  }

  /** The Unicode lower-case mapping of one Latin-1 upper-case letter. */
  function LowerChar(c: char): char
  {
    if IsUpper(c) then (c as int + 0x20) as char else c
  }

  /** `lowercaseString`: every upper-case letter replaced by its lower-case form. */
  function Lower(s: string): (r: string)
    ensures |r| == |s|
    ensures forall i :: 0 <= i < |r| ==> !IsUpper(r[i])
    ensures forall i :: 0 <= i < |s| && !IsUpper(s[i]) ==> r[i] == s[i]
    ensures forall i :: 0 <= i < |s| && IsUpper(s[i]) ==> r[i] as int == s[i] as int + 0x20
  {
    seq(|s|, i requires 0 <= i < |s| => LowerChar(s[i]))
  }

  lemma LowerIdempotent(s: string)
    ensures Lower(Lower(s)) == Lower(s)
  {
  }

  /** Two strings that differ at most in the case of their letters. */
  predicate SameUpToCase(a: string, b: string)
  {
    |a| == |b| &&
    forall i :: 0 <= i < |a| ==>
      a[i] == b[i] ||
      (IsUpper(a[i]) && b[i] as int == a[i] as int + 0x20) ||
      (IsUpper(b[i]) && a[i] as int == b[i] as int + 0x20)
  }

  /** Lower-casing identifies exactly the strings that differ only in case. */
  lemma LowerCaseInsensitive(a: string, b: string)
    ensures Lower(a) == Lower(b) <==> SameUpToCase(a, b)
  {
    if |a| == |b| {
      assert Lower(a) == Lower(b) <==> forall i :: 0 <= i < |a| ==> LowerChar(a[i]) == LowerChar(b[i]);
    }
  }

  /** Members of `NSCharacterSet.whitespaceAndNewlineCharacterSet()`: the
      separators of Unicode categories Zs, Zl and Zp, U+0009 to U+000D and U+0085. */
  predicate IsWhitespace(c: char)
  {
    ('\t' <= c <= '\r') || c == ' ' || c == '\U{85}' || c == '\U{A0}' || c == '\U{1680}'
    || ('\U{2000}' <= c <= '\U{200A}') || c == '\U{2028}' || c == '\U{2029}' || c == '\U{202F}'
    || c == '\U{205F}' || c == '\U{3000}'
  }

  predicate AllWhitespace(s: string)
  {
    forall i :: 0 <= i < |s| ==> IsWhitespace(s[i])
  }

  /** `s` without its leading whitespace. */
  function TrimStart(s: string): (r: string)
    ensures |r| <= |s| && r == s[|s| - |r|..]
    ensures forall i :: 0 <= i < |s| - |r| ==> IsWhitespace(s[i])
    ensures r != [] ==> !IsWhitespace(r[0])
  {
    if s != [] && IsWhitespace(s[0]) then TrimStart(s[1..]) else s
  }

  /** `s` without its trailing whitespace. */
  function TrimEnd(s: string): (r: string)
    ensures |r| <= |s| && r == s[..|r|]
    ensures AllWhitespace(s[|r|..])
    ensures r != [] ==> !IsWhitespace(r[|r| - 1])
  {
    if s != [] && IsWhitespace(s[|s| - 1]) then
      var r := TrimEnd(s[..|s| - 1]);
      assert s[|r|..] == s[..|s| - 1][|r|..] + [s[|s| - 1]];
      r
    else s
  }

  /** `stringByTrimmingCharactersInSet(whitespaceAndNewlineCharacterSet())`. */
  function Trim(s: string): (r: string)
    ensures r == [] <==> AllWhitespace(s)
    ensures r != [] ==> !IsWhitespace(r[0]) && !IsWhitespace(r[|r| - 1])
  {
    var t := TrimStart(s);
    assert t == [] ==> s[..|s|] == s;
    var r := TrimEnd(t);
    r
  }

  lemma {:induction false} TrimStartPadded(p: string, x: string)
    requires AllWhitespace(p)
    requires x != [] && !IsWhitespace(x[0])
    ensures TrimStart(p + x) == x
  {
    if p == [] {
      assert p + x == x;
    } else {
      assert (p + x)[0] == p[0];
      assert (p + x)[1..] == p[1..] + x;
      TrimStartPadded(p[1..], x);
    }
  }

  lemma {:induction false} TrimEndPadded(x: string, q: string)
    requires AllWhitespace(q)
    requires x != [] && !IsWhitespace(x[|x| - 1])
    ensures TrimEnd(x + q) == x
  {
    if q == [] {
      assert x + q == x;
    } else {
      var s := x + q;
      assert s[|s| - 1] == q[|q| - 1];
      assert s[..|s| - 1] == x + q[..|q| - 1];
      TrimEndPadded(x, q[..|q| - 1]);
    }
  }

  /** Trimming removes exactly the whitespace around a text whose first and last
      characters are not whitespace. */
  lemma TrimPadded(p: string, x: string, q: string)
    requires AllWhitespace(p) && AllWhitespace(q)
    requires x != [] && !IsWhitespace(x[0]) && !IsWhitespace(x[|x| - 1])
    ensures Trim(p + x + q) == x
  {
    assert p + x + q == p + (x + q);
    assert (x + q)[0] == x[0];
    TrimStartPadded(p, x + q);
    TrimEndPadded(x, q);
  }
}
