/**
 Scanning of the document text: x_FindChar, x_FindToken and string splicing.
 A C string is modelled as the sequence of its characters; the end of the
 sequence is the terminator.
 */
module TextScan {

  /** The character classes the scanners stop at. */
  datatype Class = Blank | Separator | Only(c: char)

  predicate Is(k: Class, c: char) {
    match k
    case Blank => c == ' ' || c == '\t' || c == '\n' || c == '\r'
    case Separator =>
      || c == ' ' || c == '\t' || c == '\n' || c == '\r' || c == '<' || c == '>'
      || c == '=' || c == '\\' || c == '/' || c == '?' || c == '!'
    case Only(x) => c == x
  }

  predicate IsQuote(c: char) { c == '\"' || c == '\'' }

  /** First position at or after `n` holding a character of `cs`, or the end. */
  function FindAny(s: string, n: nat, k: Class): (r: nat)
    requires n <= |s|
    ensures n <= r <= |s|
    ensures forall i :: n <= i < r ==> !Is(k, s[i])
    ensures r < |s| ==> Is(k, s[r])
    decreases |s| - n
  {
    if n == |s| || Is(k, s[n]) then n else FindAny(s, n + 1, k)
  }

  /** First position at or after `n` holding a character outside `cs`, or the end. */
  function SkipAny(s: string, n: nat, k: Class): (r: nat)
    requires n <= |s|
    ensures n <= r <= |s|
    ensures forall i :: n <= i < r ==> Is(k, s[i])
    ensures r < |s| ==> !Is(k, s[r])
    decreases |s| - n
  {
    if n == |s| || !Is(k, s[n]) then n else SkipAny(s, n + 1, k)
  }

  lemma FindAnyIs(s: string, n: nat, k: Class, r: nat)
    requires n <= r < |s| && Is(k, s[r]) && forall i :: n <= i < r ==> !Is(k, s[i])
    ensures FindAny(s, n, k) == r
  {
  }

  lemma SkipAnyIs(s: string, n: nat, k: Class, r: nat)
    requires n <= r < |s| && !Is(k, s[r]) && forall i :: n <= i < r ==> Is(k, s[i])
    ensures SkipAny(s, n, k) == r
  {
  }

  /** TokenPos, with the result of x_FindToken in `found`. */
  datatype Token = Token(nL: nat, nR: int, next: nat, isString: bool, found: bool)

  function TokenAt(s: string, n: nat): (t: Token)
    requires n <= |s|
    ensures n <= t.nL <= t.next <= |s| && t.nR < t.next + 1
    ensures t.found ==> n < t.next
    ensures t.found && !t.isString ==> t.nL < |s| && t.nR == t.next - 1
    ensures !t.found ==> t.nL == |s| && !t.isString
  {
    var i := SkipAny(s, n, Blank);
    if i == |s| then Token(i, i, i, false, false)
    else if IsQuote(s[i]) then
      var q := FindAny(s, i + 1, Only(s[i]));
      Token(i + 1, q - 1, if q < |s| then q + 1 else q, true, true)
    else
      var e := FindAny(s, i, Separator);
      var e' := if e == i then i + 1 else e;
      Token(i, e' - 1, e', false, true)
  }

  /** x_FindChar. */
  method FindChar(s: string, n: nat, c: char) returns (r: nat, found: bool)
    requires n <= |s|
    ensures r == FindAny(s, n, Only(c)) && found == (r < |s|)
  {
    r := n;
    while r < |s| && s[r] != c
      invariant n <= r <= |s| && FindAny(s, n, Only(c)) == FindAny(s, r, Only(c))
    {
      r := r + 1;
    }
    found := r < |s|;
  }

  /** x_FindToken. */
  method FindToken(s: string, n: nat) returns (t: Token)
    requires n <= |s|
    ensures t == TokenAt(s, n)
  {
    var i := n;
    while i < |s| && Is(Blank, s[i])
      invariant n <= i <= |s| && SkipAny(s, n, Blank) == SkipAny(s, i, Blank)
    {
      i := i + 1;
    }
    if i == |s| {
      return Token(i, i, i, false, false);
    }
    var first := s[i];
    if first == '\"' || first == '\'' {
      i := i + 1;
      var nL := i;
      var r, found := FindChar(s, i, first);
      t := Token(nL, r - 1, if r < |s| then r + 1 else r, true, true);
    } else {
      var nL := i;
      while i < |s| && !Is(Separator, s[i])
        invariant nL <= i <= |s| && FindAny(s, nL, Separator) == FindAny(s, i, Separator)
      {
        i := i + 1;
      }
      if i == nL { i := i + 1; }
      t := Token(nL, i - 1, i, false, true);
    }
  }

  // ----- text at a position --------------------------------------------------

  predicate Has(s: string, n: nat, t: string): (b: bool)
    ensures b ==> n + |t| <= |s|
  {
    n + |t| <= |s| && forall i :: 0 <= i < |t| ==> s[n + i] == t[i]
  }

  /** strstr: the first occurrence of `pat` at or after `n`, or |s|. */
  function FindStr(s: string, n: nat, pat: string): (r: nat)
    requires n <= |s| && pat != ""
    ensures n <= r <= |s|
    ensures r < |s| ==> Has(s, r, pat)
    ensures forall i :: n <= i < r ==> !Has(s, i, pat)
    decreases |s| - n
  {
    if n == |s| then n
    else if n + |pat| <= |s| && s[n..n + |pat|] == pat then n
    else FindStr(s, n + 1, pat)
  }

  lemma HasSlice(s: string, n: nat, t: string)
    ensures Has(s, n, t) <==> n + |t| <= |s| && s[n..n + |t|] == t
  {
    if n + |t| <= |s| && s[n..n + |t|] == t {
      forall i | 0 <= i < |t| ensures s[n + i] == t[i] { assert s[n..n + |t|][i] == t[i]; }
    }
  }

  lemma HasConcat(s: string, n: nat, a: string, b: string)
    ensures Has(s, n, a + b) <==> Has(s, n, a) && Has(s, n + |a|, b)
  {
    var t := a + b;
    if Has(s, n, t) {
      forall i | 0 <= i < |a| ensures s[n + i] == a[i] { assert t[i] == a[i]; }
      forall i | 0 <= i < |b| ensures s[n + |a| + i] == b[i] { assert t[|a| + i] == b[i]; }
    }
  }

  lemma HasIn(s: string, n: nat, g: string, i: nat, pat: string)
    requires Has(s, n, g) && i + |pat| <= |g|
    ensures Has(s, n + i, pat) <==> Has(g, i, pat)
  {
    if Has(g, i, pat) {
      forall k | 0 <= k < |pat| ensures s[n + i + k] == pat[k] { HasChar(s, n, g, i + k); }
    }
    if Has(s, n + i, pat) {
      forall k | 0 <= k < |pat| ensures g[i + k] == pat[k] { HasChar(s, n, g, i + k); }
    }
  }

  lemma HasMid(a: string, m: string, b: string)
    ensures Has(a + m + b, |a|, m)
  {
  }

  lemma HasChar(s: string, n: nat, t: string, i: nat)
    requires Has(s, n, t) && i < |t|
    ensures s[n + i] == t[i]
  {
  }

  /** A search that stops inside `g`, or right behind it, stops there wherever `g` stands. */
  lemma FindIn(s: string, n: nat, g: string, i: nat, k: Class)
    requires Has(s, n, g) && i <= |g|
    requires FindAny(g, i, k) < |g| || (n + |g| < |s| && Is(k, s[n + |g|]))
    ensures FindAny(s, n + i, k) == n + FindAny(g, i, k)
  {
    var j := FindAny(g, i, k);
    forall x | n + i <= x < n + j ensures !Is(k, s[x]) { HasChar(s, n, g, x - n); }
    if j < |g| { HasChar(s, n, g, j); }
    FindAnyIs(s, n + i, k, n + j);
  }

  lemma SkipIn(s: string, n: nat, g: string, i: nat, k: Class)
    requires Has(s, n, g) && i <= |g|
    requires SkipAny(g, i, k) < |g| || (n + |g| < |s| && !Is(k, s[n + |g|]))
    ensures SkipAny(s, n + i, k) == n + SkipAny(g, i, k)
  {
    var j := SkipAny(g, i, k);
    forall x | n + i <= x < n + j ensures Is(k, s[x]) { HasChar(s, n, g, x - n); }
    if j < |g| { HasChar(s, n, g, j); }
    SkipAnyIs(s, n + i, k, n + j);
  }

  /** std::string::replace(at, len, ins). */
  function Splice(s: string, at: nat, len: nat, ins: string): (r: string)
    requires at + len <= |s|
    ensures |r| == |s| - len + |ins|
  {
    s[..at] + ins + s[at + len..]
  }

  lemma SpliceAt(a: string, m: string, b: string, ins: string)
    ensures Splice(a + m + b, |a|, |m|, ins) == a + ins + b
  {
    assert (a + m + b)[..|a|] == a;
    assert (a + m + b)[|a| + |m|..] == b;
  }

  lemma SpliceEnd(s: string, ins: string)
    ensures Splice(s, |s|, 0, ins) == s + ins
  {
  }

  lemma SpliceMid(a: string, m: string, b: string, at: nat, len: nat, ins: string)
    requires at + len <= |m|
    ensures Splice(a + m + b, |a| + at, len, ins) == a + Splice(m, at, len, ins) + b
  {
    var l, x, r := m[..at], m[at..at + len], m[at + len..];
    assert m == l + x + r;
    SpliceAt(l, x, r, ins);
    assert a + m + b == (a + l) + x + (r + b);
    SpliceAt(a + l, x, r + b, ins);
    assert (a + l) + ins + (r + b) == a + (l + ins + r) + b;
  }

  lemma AssocIn(g: string, a: string, l: string, x: string, r: string, z: string, n: string)
    ensures g + (a + (l + x + r) + z) + n == (g + a + l) + x + (r + z + n)
  {
  }

  lemma AssocNext(g: string, a: string, l: string, x: string, r: string)
    ensures g + a + (l + x + r) == (g + a + l) + x + r
  {
  }

  lemma SpliceIn(a: string, l: string, m: string, r: string, z: string, ins: string)
    ensures |a| + |l| + |m| <= |a + (l + m + r) + z|
    ensures Splice(a + (l + m + r) + z, |a| + |l|, |m|, ins) == a + (l + ins + r) + z
  {
    assert a + (l + m + r) + z == (a + l) + m + (r + z);
    SpliceAt(a + l, m, r + z, ins);
    assert (a + l) + ins + (r + z) == a + (l + ins + r) + z;
  }
}
