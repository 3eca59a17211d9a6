/** String.prototype.trim, which the add form applies to the typed text before it
    decides whether to create a todo. */
module JsText {

  /** The code points ECMAScript calls WhiteSpace or LineTerminator (ECMA-262,
      sections 12.2 and 12.3): tab, line feed, vertical tab, form feed, carriage
      return, the space separators of category Zs, the byte order mark, and the
      line and paragraph separators. These are what trim() strips. */
  predicate IsWhitespace(c: char) {
    || c == '\t' || c == '\n' || c == '\U{000B}' || c == '\U{000C}' || c == '\r'
    || c == ' ' || c == '\U{00A0}' || c == '\U{1680}'
    || ('\U{2000}' <= c <= '\U{200A}')
    || c == '\U{2028}' || c == '\U{2029}' || c == '\U{202F}' || c == '\U{205F}'
    || c == '\U{3000}' || c == '\U{FEFF}'
  }

  predicate AllWhitespace(s: string) {
    forall i :: 0 <= i < |s| ==> IsWhitespace(s[i])
  }

  /** A non-empty string that neither starts nor ends with whitespace. */
  predicate IsTrimmed(s: string) {
    s != [] && !IsWhitespace(s[0]) && !IsWhitespace(s[|s| - 1])
  }

  /** s without its leading whitespace: a suffix of s, preceded only by whitespace. */
  function TrimStart(s: string): (r: string)
    ensures |r| <= |s| && r == s[|s| - |r|..]
    ensures AllWhitespace(s[..|s| - |r|])
    ensures r == [] || !IsWhitespace(r[0])
  {
    if s != [] && IsWhitespace(s[0]) then
      var r := TrimStart(s[1..]);
      assert s[..|s| - |r|] == [s[0]] + s[1..][..|s| - 1 - |r|];
      r
    else
      s
  }

  /** s without its trailing whitespace: a prefix of s, followed only by whitespace. */
  function TrimEnd(s: string): (r: string)
    ensures |r| <= |s| && r == s[..|r|]
    ensures AllWhitespace(s[|r|..])
    ensures r == [] || !IsWhitespace(r[|r| - 1])
  {
    if s != [] && IsWhitespace(s[|s| - 1]) then
      var r := TrimEnd(s[..|s| - 1]);
      assert s[|r|..] == s[..|s| - 1][|r|..] + [s[|s| - 1]];
      r
    else
      s
  }

  /** trim(): an empty result, or one that starts and ends with a
      non-whitespace character (see TrimSplits for where it sits in s). */
  function Trim(s: string): (r: string)
    ensures |r| <= |s|
    ensures r == [] || IsTrimmed(r)
  {
    TrimEnd(TrimStart(s))
  }

  /** The number of whitespace characters trim() removes from the front. */
  function LeadLength(s: string): (n: nat)
    ensures n <= |s|
  {
    |s| - |TrimStart(s)|
  }

  lemma SplitAround<T>(s: seq<T>, t: seq<T>, r: seq<T>)
    requires |t| <= |s| && t == s[|s| - |t|..]
    requires |r| <= |t| && r == t[..|r|]
    ensures s == s[..|s| - |t|] + r + s[|s| - |t| + |r|..]
  {
  }

  /** s is the whitespace trim() removes in front, the result, and the
      whitespace it removes at the end. */
  lemma TrimSplits(s: string)
    ensures LeadLength(s) + |Trim(s)| <= |s|
    ensures s == s[..LeadLength(s)] + Trim(s) + s[LeadLength(s) + |Trim(s)|..]
    ensures AllWhitespace(s[..LeadLength(s)]) && AllWhitespace(s[LeadLength(s) + |Trim(s)|..])
  {
    var t := TrimStart(s);
    var r := TrimEnd(t);
    var n := LeadLength(s);
    assert n == |s| - |t| && r == Trim(s);
    SplitAround(s, t, r);
    assert AllWhitespace(s[n + |r|..]) by {
      assert s[n + |r|..] == t[|r|..];
    }
  }

  lemma {:induction false} TrimStartSkips(lead: string, t: string)
    requires AllWhitespace(lead)
    ensures TrimStart(lead + t) == TrimStart(t)
  {
    if lead != [] {
      assert (lead + t)[1..] == lead[1..] + t;
      TrimStartSkips(lead[1..], t);
    } else {
      assert lead + t == t;
    }
  }

  lemma {:induction false} TrimEndSkips(t: string, trail: string)
    requires AllWhitespace(trail)
    ensures TrimEnd(t + trail) == TrimEnd(t)
  {
    if trail != [] {
      var n := |trail| - 1;
      assert (t + trail)[..|t + trail| - 1] == t + trail[..n];
      TrimEndSkips(t, trail[..n]);
    } else {
      assert t + trail == t;
    }
  }

  lemma {:induction false} TrimStartAllWhitespace(s: string)
    requires AllWhitespace(s)
    ensures TrimStart(s) == []
  {
    if s != [] {
      TrimStartAllWhitespace(s[1..]);
    }
  }

  /** The properties of Trim determine its result: whatever whitespace
      surrounds a trimmed core, trim() returns exactly that core. */
  lemma TrimUnique(s: string, lead: string, core: string, trail: string)
    requires s == lead + core + trail && AllWhitespace(lead) && AllWhitespace(trail)
    requires core == [] || IsTrimmed(core)
    ensures Trim(s) == core
  {
    var rest := core + trail;
    assert s == lead + rest;
    assert TrimStart(s) == TrimStart(rest) by {
      TrimStartSkips(lead, rest);
    }
    if core == [] {
      assert rest == trail;
      TrimStartAllWhitespace(trail);
    } else {
      assert TrimStart(rest) == rest by {
        assert rest[0] == core[0];
      }
      assert TrimEnd(rest) == TrimEnd(core) by {
        TrimEndSkips(core, trail);
      }
    }
  }

  /** trim() gives the empty string exactly for strings made only of whitespace. */
  lemma TrimEmptyIffWhitespace(s: string)
    ensures Trim(s) == [] <==> AllWhitespace(s)
  {
    if AllWhitespace(s) {
      assert s == s + [] + [];
      TrimUnique(s, s, [], []);
    }
  }

  /** Trimming twice is trimming once. */
  lemma TrimIdempotent(s: string)
    ensures Trim(Trim(s)) == Trim(s)
  {
    var r := Trim(s);
    assert r == [] + r + [];
    TrimUnique(r, [], r, []);
  }
}
