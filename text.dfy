/** The small part of Python's string behaviour that the modelled code relies on:
    `strip`, `strip(chars)`, ASCII `lower`, `in` on strings, `", ".join`,
    splitting at the last separator and `str(int)`. */
module Text {

  /** The characters for which Python's `str.isspace()` holds: the ones
      `str.strip()` with no argument removes from both ends. */
  const Whitespace: set<char> := {
    '\t', '\n', '\U{0B}', '\U{0C}', '\r', '\U{1C}', '\U{1D}', '\U{1E}', '\U{1F}', ' ',
    '\U{85}', '\U{A0}', '\U{1680}',
    '\U{2000}', '\U{2001}', '\U{2002}', '\U{2003}', '\U{2004}', '\U{2005}',
    '\U{2006}', '\U{2007}', '\U{2008}', '\U{2009}', '\U{200A}',
    '\U{2028}', '\U{2029}', '\U{202F}', '\U{205F}', '\U{3000}'
  }

  predicate AllIn(s: string, cs: set<char>) {
    forall k :: 0 <= k < |s| ==> s[k] in cs
  }

  /** Drops every leading character that is in `cs`. */
  function TrimStart(s: string, cs: set<char>): string {
    if s != [] && s[0] in cs then TrimStart(s[1..], cs) else s
  }

  /** Drops every trailing character that is in `cs`. */
  function TrimEnd(s: string, cs: set<char>): string {
    if s != [] && s[|s| - 1] in cs then TrimEnd(s[..|s| - 1], cs) else s
  }

  /** `TrimStart` keeps a suffix, cuts only characters of `cs`, and stops at
      the first character outside `cs`. */
  lemma {:induction false} TrimStartShape(s: string, cs: set<char>)
    ensures |TrimStart(s, cs)| <= |s| && TrimStart(s, cs) == s[|s| - |TrimStart(s, cs)|..]
    ensures AllIn(s[..|s| - |TrimStart(s, cs)|], cs)
    ensures TrimStart(s, cs) != [] ==> TrimStart(s, cs)[0] !in cs
  {
    if s != [] && s[0] in cs {
      var r := TrimStart(s[1..], cs);
      TrimStartShape(s[1..], cs);
      assert s[..|s| - |r|] == [s[0]] + s[1..][..|s| - 1 - |r|];
    }
  }

  /** `TrimEnd` keeps a prefix, cuts only characters of `cs`, and stops at
      the last character outside `cs`. */
  lemma {:induction false} TrimEndShape(s: string, cs: set<char>)
    ensures |TrimEnd(s, cs)| <= |s| && TrimEnd(s, cs) == s[..|TrimEnd(s, cs)|]
    ensures AllIn(s[|TrimEnd(s, cs)|..], cs)
    ensures TrimEnd(s, cs) != [] ==> TrimEnd(s, cs)[|TrimEnd(s, cs)| - 1] !in cs
  {
    if s != [] && s[|s| - 1] in cs {
      var r := TrimEnd(s[..|s| - 1], cs);
      TrimEndShape(s[..|s| - 1], cs);
      assert s[|r|..] == s[..|s| - 1][|r|..] + [s[|s| - 1]];
    }
  }

  /** A text made only of characters of `cs` is trimmed away entirely. */
  lemma {:induction false} TrimStartAllIn(s: string, cs: set<char>)
    requires AllIn(s, cs)
    ensures TrimStart(s, cs) == []
  {
    if s != [] {
      assert AllIn(s[1..], cs) by {
        forall k | 0 <= k < |s[1..]| ensures s[1..][k] in cs {
          assert s[1..][k] == s[k + 1];
        }
      }
      TrimStartAllIn(s[1..], cs);
    }
  }

  /** Python's `s.strip(chars)`. */
  function StripChars(s: string, cs: set<char>): string {
    TrimEnd(TrimStart(s, cs), cs)
  }

  /** Python's `s.strip()`. */
  function Strip(s: string): string {
    StripChars(s, Whitespace)
  }

  /** Neither end of what `strip(chars)` leaves is in `cs`. */
  lemma StripCharsEnds(s: string, cs: set<char>)
    ensures var r := StripChars(s, cs);
      r != [] ==> r[0] !in cs && r[|r| - 1] !in cs
  {
    var t := TrimStart(s, cs);
    TrimStartShape(s, cs);
    TrimEndShape(t, cs);
  }

  /** A text whose two ends are outside `cs` is left as it is. */
  lemma StripCharsUntouched(s: string, cs: set<char>)
    requires s != [] ==> s[0] !in cs && s[|s| - 1] !in cs
    ensures StripChars(s, cs) == s
  {
  }

  /** Stripping twice is stripping once. */
  lemma StripCharsIdempotent(s: string, cs: set<char>)
    ensures StripChars(StripChars(s, cs), cs) == StripChars(s, cs)
  {
    var t := TrimStart(s, cs);
    var r := TrimEnd(t, cs);
    if r != [] {
      TrimStartShape(s, cs);
      TrimEndShape(t, cs);
      assert r[0] == t[0];
      assert TrimStart(r, cs) == r;
      assert TrimEnd(r, cs) == r;
    }
  }

  /** Padding made only of stripped characters does not change the result. */
  lemma {:induction false} StripCharsPadding(pre: string, s: string, post: string, cs: set<char>)
    requires AllIn(pre, cs) && AllIn(post, cs)
    ensures StripChars(pre + s + post, cs) == StripChars(s, cs)
  {
    TrimStartPadding(pre, s + post, cs);
    assert pre + s + post == pre + (s + post);
    var t := TrimStart(s, cs);
    TrimStartBeforeSuffix(s, post, cs);
    TrimEndPadding(t, post, cs);
    StripCharsEmptyIff(s, cs);
    if AllIn(s, cs) {
      TrimStartAllIn(s, cs);
      var u := TrimStart(s + post, cs);
      assert AllIn(u, cs);
      TrimEndAllIn(u, cs);
    }
  }

  lemma {:induction false} TrimStartPadding(pre: string, s: string, cs: set<char>)
    requires AllIn(pre, cs)
    ensures TrimStart(pre + s, cs) == TrimStart(s, cs)
  {
    if pre == [] {
      assert pre + s == s;
    } else {
      var u := pre + s;
      assert u[0] == pre[0];
      assert u[1..] == pre[1..] + s;
      assert AllIn(pre[1..], cs) by {
        forall k | 0 <= k < |pre[1..]| ensures pre[1..][k] in cs {
          assert pre[1..][k] == pre[k + 1];
        }
      }
      TrimStartPadding(pre[1..], s, cs);
    }
  }

  /** Trimming the front of `s + post` trims the front of `s`, unless `s` is
      made only of trimmed characters. */
  lemma {:induction false} TrimStartBeforeSuffix(s: string, post: string, cs: set<char>)
    requires AllIn(post, cs)
    ensures TrimStart(s + post, cs) == TrimStart(s, cs) + post || (AllIn(s, cs) && AllIn(TrimStart(s + post, cs), cs))
    ensures TrimStart(s, cs) != [] ==> TrimStart(s + post, cs) == TrimStart(s, cs) + post
  {
    if s == [] {
      assert s + post == post;
      TrimStartAllIn(post, cs);
    } else if s[0] in cs {
      assert (s + post)[0] == s[0];
      assert (s + post)[1..] == s[1..] + post;
      TrimStartBeforeSuffix(s[1..], post, cs);
      if AllIn(s[1..], cs) {
        assert AllIn(s, cs) by {
          forall k | 0 <= k < |s| ensures s[k] in cs {
            if k > 0 {
              assert s[k] == s[1..][k - 1];
            }
          }
        }
      }
    } else {
      assert (s + post)[0] == s[0];
    }
  }

  /** A text made only of characters of `cs` is trimmed away from the end too. */
  lemma {:induction false} TrimEndAllIn(s: string, cs: set<char>)
    requires AllIn(s, cs)
    ensures TrimEnd(s, cs) == []
  {
    if s != [] {
      var init := s[..|s| - 1];
      assert AllIn(init, cs) by {
        forall k | 0 <= k < |init| ensures init[k] in cs {
          assert init[k] == s[k];
        }
      }
      TrimEndAllIn(init, cs);
    }
  }

  lemma {:induction false} TrimEndPadding(s: string, post: string, cs: set<char>)
    requires AllIn(post, cs)
    ensures TrimEnd(s + post, cs) == TrimEnd(s, cs)
  {
    if post != [] {
      assert (s + post)[|s + post| - 1] == post[|post| - 1];
      assert (s + post)[..|s + post| - 1] == s + post[..|post| - 1];
      var init := post[..|post| - 1];
      assert AllIn(init, cs) by {
        forall k | 0 <= k < |init| ensures init[k] in cs {
          assert init[k] == post[k];
        }
      }
      TrimEndPadding(s, post[..|post| - 1], cs);
    } else {
      assert s + post == s;
    }
  }

  /** `strip(chars)` leaves nothing exactly when every character is stripped. */
  lemma StripCharsEmptyIff(s: string, cs: set<char>)
    ensures StripChars(s, cs) == [] <==> AllIn(s, cs)
  {
    var t := TrimStart(s, cs);
    TrimStartShape(s, cs);
    if AllIn(s, cs) {
      TrimStartAllIn(s, cs);
    } else if t != [] {
      TrimEndShape(t, cs);
    }
  }

  /** Python's `c.lower()` on ASCII letters; every other character is left as it is. */
  function LowerChar(c: char): char {
    if 'A' <= c <= 'Z' then (c as int + 32) as char else c
  }

  /** Python's `s.lower()`, with case mapping restricted to ASCII. */
  function Lower(s: string): (r: string)
    ensures |r| == |s| && forall k :: 0 <= k < |s| ==> r[k] == LowerChar(s[k])
  {
    if s == [] then [] else [LowerChar(s[0])] + Lower(s[1..])
  }

  lemma LowerConcat(a: string, b: string)
    ensures Lower(a + b) == Lower(a) + Lower(b)
  {
  }

  /** Python's `needle in hay` for strings. */
  predicate Contains(hay: string, needle: string)
    decreases |hay|
  {
    needle <= hay || (hay != [] && Contains(hay[1..], needle))
  }

  /** Python's `sep.join(xs)`. */
  function Join(sep: string, xs: seq<string>): string {
    if xs == [] then [] else if |xs| == 1 then xs[0] else xs[0] + sep + Join(sep, xs[1..])
  }

  /** A join starts with its first part and ends with its last one. */
  lemma {:induction false} JoinEnds(sep: string, xs: seq<string>)
    ensures var r := Join(sep, xs);
      xs != [] ==> xs[0] <= r && |xs[|xs| - 1]| <= |r| && r[|r| - |xs[|xs| - 1]|..] == xs[|xs| - 1]
  {
    if |xs| >= 2 {
      var rest := Join(sep, xs[1..]);
      JoinEnds(sep, xs[1..]);
      var last := xs[|xs| - 1];
      assert xs[1..][|xs[1..]| - 1] == last;
      var r := xs[0] + sep + rest;
      assert r[..|xs[0]|] == xs[0];
      assert r[|r| - |last|..] == rest[|rest| - |last|..];
    }
  }

  /** The text after the last `c` in `s`, or all of `s` when `c` does not
      occur: Python's `s.split(c)[-1]`, and `s.rsplit(c, 1)[1]` when `c in s`. */
  function AfterLast(s: string, c: char): (r: string)
    ensures |r| <= |s| && r == s[|s| - |r|..]
    ensures c !in r
    ensures |r| < |s| ==> s[|s| - |r| - 1] == c
  {
    if s == [] || s[|s| - 1] == c then [] else AfterLast(s[..|s| - 1], c) + [s[|s| - 1]]
  }

  /** `AfterLast` is the only suffix with those three properties: the largest
      separator-free suffix. */
  lemma AfterLastUnique(s: string, c: char, t: string)
    requires |t| <= |s| && t == s[|s| - |t|..] && c !in t
    requires |t| < |s| ==> s[|s| - |t| - 1] == c
    ensures t == AfterLast(s, c)
  {
  }

  /** Lower-casing neither creates nor removes dots, so it commutes with `AfterLast('.')`. */
  lemma LowerAfterLastDot(s: string)
    ensures Lower(AfterLast(s, '.')) == AfterLast(Lower(s), '.')
  {
    var r := Lower(AfterLast(s, '.'));
    var a := AfterLast(s, '.');
    var ls := Lower(s);
    assert r == ls[|ls| - |r|..];
    AfterLastUnique(ls, '.', r);
  }

  function DigitChar(d: nat): char
    requires d < 10
  {
    "0123456789"[d]
  }

  /** The decimal digits of `n`, most significant first, without leading zeros. */
  function Digits(n: nat): (r: string)
    ensures r != [] && forall k :: 0 <= k < |r| ==> '0' <= r[k] <= '9'
  {
    if n < 10 then [DigitChar(n)] else Digits(n / 10) + [DigitChar(n % 10)]
  }

  /** Python's `str(n)` for an integer. */
  function DecimalString(n: int): (r: string)
    ensures r != [] && '_' !in r
  {
    if n < 0 then "-" + Digits(-n) else Digits(n)
  }

  /** Reading decimal digits back: the inverse of `Digits`. */
  function ParseDigits(s: string): nat
    requires forall k :: 0 <= k < |s| ==> '0' <= s[k] <= '9'
  {
    if s == [] then 0 else 10 * ParseDigits(s[..|s| - 1]) + (s[|s| - 1] as int - '0' as int)
  }

  /** Reading back what `str(n)` wrote: the inverse of `DecimalString`. */
  function ParseDecimal(s: string): int
    requires s != []
    requires s[0] == '-' ==> forall k :: 1 <= k < |s| ==> '0' <= s[k] <= '9'
    requires s[0] != '-' ==> forall k :: 0 <= k < |s| ==> '0' <= s[k] <= '9'
  {
    if s[0] == '-' then -(ParseDigits(s[1..]) as int) else ParseDigits(s)
  }

  lemma {:induction false} ParseDigitsRoundTrip(n: nat)
    ensures ParseDigits(Digits(n)) == n
  {
    if n >= 10 {
      ParseDigitsRoundTrip(n / 10);
      var s := Digits(n);
      assert s[..|s| - 1] == Digits(n / 10);
    }
  }

  /** A minus sign in front of digits negates what they read as. */
  lemma ParseNegative(d: string)
    requires d != [] && forall k :: 0 <= k < |d| ==> '0' <= d[k] <= '9'
    ensures var s := "-" + d;
      (forall k :: 1 <= k < |s| ==> '0' <= s[k] <= '9') && ParseDecimal(s) == -(ParseDigits(d) as int)
  {
    var s := "-" + d;
    assert s[1..] == d;
    forall k | 1 <= k < |s| ensures '0' <= s[k] <= '9' {
      assert s[k] == d[k - 1];
    }
  }

  /** `str(n)` loses nothing: reading it back gives `n`. */
  lemma DecimalRoundTrip(n: int)
    ensures ParseDecimal(DecimalString(n)) == n
  {
    if n < 0 {
      ParseDigitsRoundTrip(-n);
      ParseNegative(Digits(-n));
    } else {
      var d := Digits(n);
      ParseDigitsRoundTrip(n);
      assert '0' <= d[0] <= '9';
    }
  }
}
