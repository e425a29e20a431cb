/**
 * The few pieces of Python's str behaviour that the hosts-file parser relies on,
 * restricted to ASCII: whitespace, strip(), split(), the regular-expression
 * substitution re.sub(r'\s+', ' ', s), upper() and startswith().
 */
module Text {

  datatype Option<T> = None | Some(value: T)

  /** The ASCII characters for which Python's str.isspace() holds; they are
      also what the regex class \s, strip() and split() treat as whitespace. */
  predicate IsSpace(c: char) {
    (9 <= c as int <= 13) || (28 <= c as int <= 32)
  }

  predicate HasNoSpace(s: string) {
    forall i :: 0 <= i < |s| ==> !IsSpace(s[i])
  }

  /** Length of the longest prefix of s without whitespace. */
  function TokenLen(s: string): (k: nat)
    ensures k <= |s|
    ensures forall i :: 0 <= i < k ==> !IsSpace(s[i])
    ensures k < |s| ==> IsSpace(s[k])
  {
    if s == [] || IsSpace(s[0]) then 0 else 1 + TokenLen(s[1..])
  }

  /** s.lstrip() */
  function TrimStart(s: string): (r: string)
    ensures |r| <= |s|
    ensures s != [] && IsSpace(s[0]) ==> |r| < |s|
  {
    if s != [] && IsSpace(s[0]) then TrimStart(s[1..]) else s
  }

  /** lstrip() removes a prefix made of whitespace and nothing more. */
  lemma {:induction false} TrimStartShape(s: string)
    ensures var r := TrimStart(s);
      && r == s[|s| - |r|..]
      && (forall i :: 0 <= i < |s| - |r| ==> IsSpace(s[i]))
      && (r != [] ==> !IsSpace(r[0]))
    decreases |s|
  {
    if s != [] && IsSpace(s[0]) {
      TrimStartShape(s[1..]);
    }
  }

  /** s.rstrip() */
  function TrimEnd(s: string): (r: string)
    ensures |r| <= |s|
  {
    if s != [] && IsSpace(s[|s| - 1]) then TrimEnd(s[..|s| - 1]) else s
  }

  /** rstrip() removes a suffix made of whitespace and nothing more. */
  lemma {:induction false} TrimEndShape(s: string)
    ensures var r := TrimEnd(s);
      && r == s[..|r|]
      && (forall i :: |r| <= i < |s| ==> IsSpace(s[i]))
      && (r != [] ==> !IsSpace(r[|r| - 1]))
    decreases |s|
  {
    if s != [] && IsSpace(s[|s| - 1]) {
      TrimEndShape(s[..|s| - 1]);
    }
  }

  /** s.strip() */
  function Strip(s: string): string {
    TrimEnd(TrimStart(s))
  }

  /** strip() leaves no whitespace at either end, and keeps a string without whitespace. */
  lemma StripShape(s: string)
    ensures var r := Strip(s);
      && (r != [] ==> !IsSpace(r[0]) && !IsSpace(r[|r| - 1]))
      && (r == [] <==> forall i :: 0 <= i < |s| ==> IsSpace(s[i]))
      && (HasNoSpace(s) ==> r == s)
  {
    var t := TrimStart(s);
    TrimStartShape(s);
    TrimEndShape(t);
    var r := TrimEnd(t);
    if r != [] {
      assert r[0] == t[0];
    }
    if t != [] {
      assert s[|s| - |t|] == t[0];
    }
    if HasNoSpace(s) {
      if s != [] {
        assert !IsSpace(s[0]);
        assert t == s;
        assert !IsSpace(s[|s| - 1]);
      }
    }
  }

  /** s.split(): the maximal runs of non-whitespace characters, in order. */
  function Split(s: string): seq<string>
    decreases |s|
  {
    if s == [] then []
    else if IsSpace(s[0]) then Split(s[1..])
    else
      var k := TokenLen(s);
      [s[..k]] + Split(s[k..])
  }

  /** Every token of split() is non-empty and free of whitespace. */
  lemma {:induction false} SplitTokens(s: string)
    ensures forall j :: 0 <= j < |Split(s)| ==> Split(s)[j] != [] && HasNoSpace(Split(s)[j])
    decreases |s|
  {
    if s == [] {
    } else if IsSpace(s[0]) {
      SplitTokens(s[1..]);
    } else {
      var k := TokenLen(s);
      SplitTokens(s[k..]);
      var r := [s[..k]] + Split(s[k..]);
      assert Split(s) == r;
      forall j | 0 <= j < |r|
        ensures r[j] != [] && HasNoSpace(r[j])
      {
        if j > 0 {
          assert r[j] == Split(s[k..])[j - 1];
        }
      }
    }
  }

  /** re.sub(r'\s+', ' ', s): every maximal run of whitespace becomes one space. */
  function Collapse(s: string): (r: string)
    ensures |r| == 0 <==> |s| == 0
    ensures |s| > 0 ==> (IsSpace(r[0]) <==> IsSpace(s[0]))
    decreases |s|
  {
    if s == [] then []
    else if IsSpace(s[0]) then [' '] + Collapse(TrimStart(s))
    else
      var k := TokenLen(s);
      s[..k] + Collapse(s[k..])
  }

  /** A line as the parser's regular expressions see it: stripped, and with all
      whitespace collapsed to single spaces. */
  predicate Normalized(n: string) {
    && (n != [] ==> !IsSpace(n[0]) && !IsSpace(n[|n| - 1]))
    && (forall i :: 0 <= i < |n| && IsSpace(n[i]) ==> n[i] == ' ')
    && (forall i :: 0 <= i < |n| - 1 ==> !(IsSpace(n[i]) && IsSpace(n[i + 1])))
  }

  /** The substitution keeps whitespace at the end of s exactly where s had it. */
  lemma {:induction false} CollapseLast(s: string)
    requires s != []
    ensures IsSpace(Collapse(s)[|Collapse(s)| - 1]) <==> IsSpace(s[|s| - 1])
    decreases |s|
  {
    if IsSpace(s[0]) {
      var t := TrimStart(s);
      TrimStartShape(s);
      assert Collapse(s) == [' '] + Collapse(t);
      if t != [] {
        CollapseLast(t);
        assert t[|t| - 1] == s[|s| - 1];
      }
    } else {
      var k := TokenLen(s);
      var rest := s[k..];
      assert Collapse(s) == s[..k] + Collapse(rest);
      if rest != [] {
        CollapseLast(rest);
        assert rest[|rest| - 1] == s[|s| - 1];
      }
    }
  }

  /** Every whitespace character the substitution leaves is a single space. */
  lemma {:induction false} CollapseBlanks(s: string)
    ensures forall i :: 0 <= i < |Collapse(s)| && IsSpace(Collapse(s)[i]) ==> Collapse(s)[i] == ' '
    decreases |s|
  {
    if s == [] {
    } else if IsSpace(s[0]) {
      var t := TrimStart(s);
      CollapseBlanks(t);
      var c := Collapse(t);
      var r := [' '] + c;
      assert Collapse(s) == r;
      forall i | 0 <= i < |r| && IsSpace(r[i])
        ensures r[i] == ' '
      {
        if i > 0 {
          assert r[i] == c[i - 1];
        }
      }
    } else {
      var k := TokenLen(s);
      var rest := s[k..];
      CollapseBlanks(rest);
      var c := Collapse(rest);
      var r := s[..k] + c;
      assert Collapse(s) == r;
      forall i | 0 <= i < |r| && IsSpace(r[i])
        ensures r[i] == ' '
      {
        if i >= k {
          assert r[i] == c[i - k];
        }
      }
    }
  }

  predicate NoDoubleSpace(r: string) {
    forall i :: 0 <= i < |r| - 1 ==> !(IsSpace(r[i]) && IsSpace(r[i + 1]))
  }

  /** No two whitespace characters are adjacent after the substitution. */
  lemma {:induction false} CollapseSingles(s: string)
    ensures NoDoubleSpace(Collapse(s))
    decreases |s|
  {
    if s == [] {
    } else if IsSpace(s[0]) {
      var t := TrimStart(s);
      TrimStartShape(s);
      CollapseSingles(t);
      SinglesAfterSpace(Collapse(t));
    } else {
      var k := TokenLen(s);
      CollapseSingles(s[k..]);
      assert HasNoSpace(s[..k]);
      SinglesAfterToken(s[..k], Collapse(s[k..]));
    }
  }

  lemma SinglesAfterSpace(c: string)
    requires NoDoubleSpace(c) && (c != [] ==> !IsSpace(c[0]))
    ensures NoDoubleSpace([' '] + c)
  {
    var r := [' '] + c;
    forall i | 0 <= i < |r| - 1
      ensures !(IsSpace(r[i]) && IsSpace(r[i + 1]))
    {
      assert r[i + 1] == c[i];
      if i > 0 {
        assert r[i] == c[i - 1];
      }
    }
  }

  lemma SinglesAfterToken(w: string, c: string)
    requires HasNoSpace(w) && NoDoubleSpace(c)
    ensures NoDoubleSpace(w + c)
  {
    var r := w + c;
    forall i | 0 <= i < |r| - 1
      ensures !(IsSpace(r[i]) && IsSpace(r[i + 1]))
    {
      if i < |w| {
        assert r[i] == w[i];
      } else {
        assert r[i] == c[i - |w|] && r[i + 1] == c[i + 1 - |w|];
      }
    }
  }

  /** A stripped line is normalized once its whitespace is collapsed. */
  lemma CollapseNormalizes(s: string)
    requires s != [] ==> !IsSpace(s[0]) && !IsSpace(s[|s| - 1])
    ensures Normalized(Collapse(s))
  {
    if s != [] {
      CollapseLast(s);
    }
    CollapseBlanks(s);
    CollapseSingles(s);
  }

  predicate StartsWith(s: string, prefix: string) {
    |prefix| <= |s| && s[..|prefix|] == prefix
  }

  /** s.lstrip('#') */
  function TrimHashes(s: string): (r: string)
    ensures |r| <= |s|
  {
    if s != [] && s[0] == '#' then TrimHashes(s[1..]) else s
  }

  /** lstrip('#') removes a prefix made of '#' and nothing more. */
  lemma {:induction false} TrimHashesShape(s: string)
    ensures var r := TrimHashes(s);
      && r == s[|s| - |r|..]
      && (forall i :: 0 <= i < |s| - |r| ==> s[i] == '#')
      && (r != [] ==> r[0] != '#')
    decreases |s|
  {
    if s != [] && s[0] == '#' {
      TrimHashesShape(s[1..]);
    }
  }

  function UpperChar(c: char): char {
    if 'a' <= c <= 'z' then (c as int - 'a' as int + 'A' as int) as char else c
  }

  /** s.upper() on ASCII letters; every other character is kept. */
  function Upper(s: string): (r: string)
    ensures |r| == |s|
    ensures forall i :: 0 <= i < |r| ==> r[i] == UpperChar(s[i])
  {
    if s == [] then [] else [UpperChar(s[0])] + Upper(s[1..])
  }

  // ---------------------------------------------------------------------------
  // Properties of split(), strip() and the whitespace substitution.

  /** A string of whitespace only splits into nothing. */
  lemma {:induction false} SplitOfSpaces(s: string)
    requires forall i :: 0 <= i < |s| ==> IsSpace(s[i])
    ensures Split(s) == []
    decreases |s|
  {
    if s != [] {
      SplitOfSpaces(s[1..]);
    }
  }

  /** A non-empty string without whitespace is a single token. */
  lemma SplitOfToken(t: string)
    requires t != [] && HasNoSpace(t)
    ensures Split(t) == [t]
  {
    var k := TokenLen(t);
    assert k == |t|;
    assert t[..k] == t && t[k..] == [];
  }

  /** Splitting at a whitespace character splits both sides independently. */
  lemma SplitAtSpace(a: string, c: char, b: string)
    requires IsSpace(c)
    ensures Split(a + [c] + b) == Split(a) + Split(b)
  {
    assert a + [c] + b == a + ([c] + b);
    assert ([c] + b)[1..] == b;
    SplitJoin(a, [c] + b);
  }

  lemma {:induction false} SplitJoin(a: string, y: string)
    requires y != [] && IsSpace(y[0])
    ensures Split(a + y) == Split(a) + Split(y[1..])
    decreases |a|
  {
    var x := a + y;
    if a == [] {
      assert x == y;
    } else if IsSpace(a[0]) {
      assert x[1..] == a[1..] + y;
      SplitJoin(a[1..], y);
    } else {
      var k := TokenLen(a);
      TokenOfJoin(a, y);
      SplitJoin(a[k..], y);
      Assoc([a[..k]], Split(a[k..]), Split(y[1..]));
    }
  }

  /** The first token of a + y, for y starting with whitespace, is the first token of a. */
  lemma TokenOfJoin(a: string, y: string)
    requires y != [] && IsSpace(y[0])
    ensures var x, k := a + y, TokenLen(a);
      TokenLen(x) == k && x[..k] == a[..k] && x[k..] == a[k..] + y
  {
    var x, k := a + y, TokenLen(a);
    forall i | 0 <= i < k
      ensures !IsSpace(x[i])
    {
      assert x[i] == a[i];
    }
    assert IsSpace(x[k]) by {
      if k < |a| {
        assert x[k] == a[k];
      } else {
        assert x[k] == y[0];
      }
    }
    TokenLenExact(x, k);
    assert x[..k] == a[..k];
    assert x[k..] == a[k..] + y;
  }

  /** The token length is the first whitespace position. */
  lemma {:induction false} TokenLenExact(s: string, k: nat)
    requires k <= |s| && (forall i :: 0 <= i < k ==> !IsSpace(s[i])) && (k < |s| ==> IsSpace(s[k]))
    ensures TokenLen(s) == k
    decreases k
  {
    if k > 0 {
      TokenLenExact(s[1..], k - 1);
    }
  }

  /** Concatenation is associative; stated once so that long chains of `+` can be
      regrouped by a call rather than by search. */
  lemma Assoc<T>(x: seq<T>, y: seq<T>, z: seq<T>)
    ensures (x + y) + z == x + (y + z)
  {
  }

  lemma {:induction false} SplitTrimStart(s: string)
    ensures Split(TrimStart(s)) == Split(s)
    decreases |s|
  {
    if s != [] && IsSpace(s[0]) {
      SplitTrimStart(s[1..]);
    }
  }

  lemma {:induction false} SplitTrimEnd(s: string)
    ensures Split(TrimEnd(s)) == Split(s)
    decreases |s|
  {
    if s != [] && IsSpace(s[|s| - 1]) {
      var p := s[..|s| - 1];
      SplitTrimEnd(p);
      assert s == p + [s[|s| - 1]] + [];
      SplitAtSpace(p, s[|s| - 1], []);
    }
  }

  /** strip() changes nothing about the tokens. */
  lemma SplitStrip(s: string)
    ensures Split(Strip(s)) == Split(s)
  {
    SplitTrimStart(s);
    SplitTrimEnd(TrimStart(s));
  }

  /** The whitespace substitution changes nothing about the tokens. */
  lemma {:induction false} SplitCollapse(s: string)
    ensures Split(Collapse(s)) == Split(s)
    decreases |s|
  {
    if s == [] {
    } else if IsSpace(s[0]) {
      var t := TrimStart(s);
      SplitCollapse(t);
      SplitTrimStart(s);
      assert ([' '] + Collapse(t))[1..] == Collapse(t);
    } else {
      var k := TokenLen(s);
      if k == |s| {
        assert s[k..] == [];
        assert Collapse(s) == s;
      } else {
        var rest := s[k..];
        var t := TrimStart(rest);
        assert Collapse(rest) == [' '] + Collapse(t);
        assert Collapse(s) == s[..k] + [' '] + Collapse(t);
        SplitAtSpace(s[..k], ' ', Collapse(t));
        SplitOfToken(s[..k]);
        SplitCollapse(t);
        SplitTrimStart(rest);
      }
    }
  }

  /** A non-empty stripped string begins with the first character of its first token. */
  lemma FirstTokenStart(s: string)
    requires s != [] && !IsSpace(s[0])
    ensures Split(s) != [] && Split(s)[0][0] == s[0]
  {
  }

  /** On a normalized line, the first space separates the first token from the rest. */
  lemma SplitNormalized(n: string)
    requires Normalized(n) && n != []
    ensures TokenLen(n) == |n| ==> Split(n) == [n]
    ensures TokenLen(n) < |n| ==>
      var i := TokenLen(n);
      && 0 < i && i + 1 < |n| && !IsSpace(n[i + 1])
      && Split(n) == [n[..i]] + Split(n[i + 1..])
      && Split(n[i + 1..]) != []
  {
    var i := TokenLen(n);
    if i == |n| {
      SplitOfToken(n);
    } else {
      NormalizedFirstSpace(n);
      SplitFirstToken(n);
      FirstTokenStart(n[i + 1..]);
    }
  }

  /** A first token followed by whitespace is split off on its own. */
  lemma SplitFirstToken(n: string)
    requires 0 < TokenLen(n) < |n|
    ensures Split(n) == [n[..TokenLen(n)]] + Split(n[TokenLen(n) + 1..])
  {
    var i := TokenLen(n);
    var a, y := n[..i], n[i..];
    assert n == a + y;
    assert y[1..] == n[i + 1..];
    SplitJoin(a, y);
    SplitOfToken(a);
  }

  /** On a normalized line the first whitespace is neither first nor last, and is
      followed by text. */
  lemma NormalizedFirstSpace(n: string)
    requires Normalized(n) && n != [] && TokenLen(n) < |n|
    ensures var i := TokenLen(n); 0 < i && i + 1 < |n| && !IsSpace(n[i + 1])
  {
    var i := TokenLen(n);
    assert IsSpace(n[i]);
    assert i != 0;
    assert i != |n| - 1;
  }

}
