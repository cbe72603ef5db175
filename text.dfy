/** The Python string operations the scraper relies on (str.isdigit, int(),
    str(), in, str.replace, str.lower, str.title, str.strip, slicing from the
    end, posixpath.join), written out on ASCII text so that the rest of the
    model can state exactly what each expression of main.py computes. */
module Text {

  /* ---------- digits, int() and str() ---------- */

  predicate IsDigit(c: char) { '0' <= c <= '9' }

  predicate AllDigits(s: string) { forall i :: 0 <= i < |s| ==> IsDigit(s[i]) }

  /** str.isdigit(): non-empty and made of digits. */
  predicate IsDecimal(s: string) { |s| > 0 && AllDigits(s) }

  function DigitValue(c: char): (d: nat)
    requires IsDigit(c)
    ensures d < 10
  {
    c as int - '0' as int
  }

  function DigitChar(d: nat): (c: char)
    requires d < 10
    ensures IsDigit(c) && DigitValue(c) == d
  {
    ('0' as int + d) as char
  }

  function Pow10(k: nat): (p: nat)
    ensures p >= 1
  {
    if k == 0 then 1 else 10 * Pow10(k - 1)
  }

  /** int(s) for a string of digits; leading zeros are allowed and ignored. */
  function DigitsValue(s: string): (n: nat)
    requires AllDigits(s)
    ensures n < Pow10(|s|)
  {
    if s == [] then 0 else DigitsValue(s[..|s| - 1]) * 10 + DigitValue(s[|s| - 1])
  }

  /** str(n) for a natural number: decimal, no leading zero, and int() reads it back. */
  function NatToString(n: nat): (r: string)
    ensures IsDecimal(r) && DigitsValue(r) == n
    ensures r[0] == '0' ==> n == 0 && r == "0"
  {
    if n < 10 then [DigitChar(n)]
    else
      var r := NatToString(n / 10) + [DigitChar(n % 10)];
      assert r[..|r| - 1] == NatToString(n / 10);
      r
  }

  /** str(i) for any integer. */
  function IntToString(i: int): (r: string)
    ensures i >= 0 ==> r == NatToString(i)
    ensures i < 0 ==> r == "-" + NatToString(-i)
  {
    if i < 0 then "-" + NatToString(-i) else NatToString(i)
  }

  /** A decimal string without a superfluous leading zero is what str() prints for
      the number int() reads from it. */
  lemma {:induction false} NatToStringOfDigits(s: string)
    requires IsDecimal(s) && (s[0] == '0' ==> |s| == 1)
    ensures NatToString(DigitsValue(s)) == s
  {
    var n := DigitsValue(s);
    var init := s[..|s| - 1];
    if |s| == 1 {
      assert n == DigitValue(s[0]);
    } else {
      assert init[0] == s[0];
      NatToStringOfDigits(init);
      var m := DigitsValue(init);
      assert m != 0;
      assert n == m * 10 + DigitValue(s[|s| - 1]);
      assert n / 10 == m && n % 10 == DigitValue(s[|s| - 1]);
      assert NatToString(n) == NatToString(m) + [DigitChar(n % 10)];
      assert s == init + [s[|s| - 1]];
    }
  }

  lemma {:induction false} Pow10Monotone(a: nat, b: nat)
    requires a <= b
    ensures Pow10(a) <= Pow10(b)
    decreases b
  {
    if a < b {
      Pow10Monotone(a, b - 1);
    }
  }

  /** int() of a decimal string that does not start with 0 is at least 10^(len - 1). */
  lemma {:induction false} DigitsValueLower(s: string)
    requires IsDecimal(s) && s[0] != '0'
    ensures DigitsValue(s) >= Pow10(|s| - 1)
  {
    if |s| > 1 {
      var init := s[..|s| - 1];
      assert init[0] == s[0];
      DigitsValueLower(init);
    }
  }

  /** str(n) has four characters exactly for the four-digit numbers. */
  lemma FourDigitString(n: nat)
    ensures |NatToString(n)| == 4 <==> 1000 <= n <= 9999
  {
    var r := NatToString(n);
    if |r| <= 3 {
      Pow10Monotone(|r|, 3);
    } else {
      Pow10Monotone(4, |r|);
      if n != 0 {
        DigitsValueLower(r);
        Pow10Monotone(3, |r| - 1);
        if |r| >= 5 {
          Pow10Monotone(4, |r| - 1);
        }
      }
    }
  }

  /** The last two characters of str(n), for n >= 10, are its tens and units digits. */
  lemma LastTwoDigits(n: nat)
    requires n >= 10
    ensures var s := NatToString(n);
      |s| >= 2 && s[|s| - 2..] == [DigitChar((n / 10) % 10), DigitChar(n % 10)]
  {
    var q := n / 10;
    var h := NatToString(q);
    assert NatToString(n) == h + [DigitChar(n % 10)];
    if q < 10 {
      assert q % 10 == q;
    } else {
      assert h == NatToString(q / 10) + [DigitChar(q % 10)];
    }
  }

  /* ---------- substrings ---------- */

  /** p occurs in s starting at index i. */
  predicate HasAt(s: string, i: int, p: string)
  {
    0 <= i && i + |p| <= |s| && s[i..i + |p|] == p
  }

  /** Python's `p in s`. */
  predicate Contains(s: string, p: string)
  {
    exists i | 0 <= i <= |s| - |p| :: HasAt(s, i, p)
  }

  /** s[-n:], where -0 is 0 and so s[-0:] is all of s. */
  function TakeLast(s: string, n: nat): (r: string)
    ensures |r| == if n == 0 || |s| < n then |s| else n
    ensures s == s[..|s| - |r|] + r
  {
    if n == 0 || |s| < n then s else s[|s| - n..]
  }

  /** s.replace(p, r): every occurrence, found left to right without overlap. */
  function ReplaceAll(s: string, p: string, r: string): string
    requires |p| > 0
    decreases |s|
  {
    if |s| < |p| then s
    else if s[..|p|] == p then r + ReplaceAll(s[|p|..], p, r)
    else [s[0]] + ReplaceAll(s[1..], p, r)
  }

  /** str.replace leaves a string without the pattern as it is. */
  lemma {:induction false} ReplaceAbsent(s: string, p: string, r: string)
    requires |p| > 0 && !Contains(s, p)
    ensures ReplaceAll(s, p, r) == s
  {
    if |s| >= |p| {
      assert !HasAt(s, 0, p);
      assert !Contains(s[1..], p) by {
        forall i | 0 <= i <= |s[1..]| - |p|
          ensures !HasAt(s[1..], i, p)
        {
          assert s[1..][i..i + |p|] == s[i + 1..i + 1 + |p|];
          assert !HasAt(s, i + 1, p);
        }
      }
      ReplaceAbsent(s[1..], p, r);
    }
  }

  /** An occurrence in w + u at or after w is an occurrence in u. */
  lemma HasAtAfter(w: string, u: string, i: int, p: string)
    requires |w| <= i
    ensures HasAt(w + u, i, p) <==> HasAt(u, i - |w|, p)
  {
    if i + |p| <= |w + u| {
      assert (w + u)[i..i + |p|] == u[i - |w|..i - |w| + |p|];
    }
  }

  /** s.replace("9 1", "9-1") keeps the first character of s: pattern and
      replacement both begin with '9'. */
  lemma NineOneFirst(s: string)
    requires |s| > 0
    ensures var t := ReplaceAll(s, "9 1", "9-1"); |t| > 0 && t[0] == s[0]
  {
  }

  /** The result of s.replace("9 1", "9-1") does not begin with "9 1". */
  lemma NineOneNotAtStart(s: string)
    ensures !HasAt(ReplaceAll(s, "9 1", "9-1"), 0, "9 1")
  {
    var t := ReplaceAll(s, "9 1", "9-1");
    if |s| < 3 {
      assert t == s;
    } else if s[..3] == "9 1" {
      assert t == "9-1" + ReplaceAll(s[3..], "9 1", "9-1");
    } else if s[0] != '9' {
      NineOneFirst(s);
    } else if |s| == 3 {
      assert t == s;
    } else {
      var u := ReplaceAll(s[1..], "9 1", "9-1");
      assert t == [s[0]] + u;
      NineOneFirst(s[1..]);
      if s[1] == ' ' {
        assert s[1..][..3] != "9 1";
        assert u == [s[1]] + ReplaceAll(s[2..], "9 1", "9-1");
        NineOneFirst(s[2..]);
        assert t[..3] == s[..3];
      }
    }
  }

  /** After s.replace("9 1", "9-1") no "9 1" is left: the replacement cannot form a
      new occurrence with its neighbours. */
  lemma {:induction false} NineOneGone(s: string)
    ensures !Contains(ReplaceAll(s, "9 1", "9-1"), "9 1")
  {
    var t := ReplaceAll(s, "9 1", "9-1");
    if |s| < 3 {
      assert t == s;
    } else if s[..3] == "9 1" {
      var u := ReplaceAll(s[3..], "9 1", "9-1");
      NineOneGone(s[3..]);
      assert t == "9-1" + u;
      forall i | 0 <= i <= |t| - 3
        ensures !HasAt(t, i, "9 1")
      {
        if i >= 3 {
          HasAtAfter("9-1", u, i, "9 1");
        } else {
          assert t[i] != '9' || t[i + 1] != ' ';
        }
      }
    } else {
      var u := ReplaceAll(s[1..], "9 1", "9-1");
      NineOneGone(s[1..]);
      assert t == [s[0]] + u;
      forall i | 0 <= i <= |t| - 3
        ensures !HasAt(t, i, "9 1")
      {
        if i >= 1 {
          HasAtAfter([s[0]], u, i, "9 1");
        } else {
          NineOneNotAtStart(s);
        }
      }
    }
  }

  /** s.replace("-", " ") changes every hyphen into a space and nothing else. */
  function SpaceHyphens(s: string): (r: string)
    ensures |r| == |s|
    ensures forall k :: 0 <= k < |s| ==> r[k] == if s[k] == '-' then ' ' else s[k]
  {
    HyphensReplaced(s);
    ReplaceAll(s, "-", " ")
  }

  lemma {:induction false} HyphensReplaced(s: string)
    ensures var r := ReplaceAll(s, "-", " ");
      && |r| == |s|
      && forall k :: 0 <= k < |s| ==> r[k] == if s[k] == '-' then ' ' else s[k]
    decreases |s|
  {
    if s != [] {
      HyphensReplaced(s[1..]);
      var u := ReplaceAll(s[1..], "-", " ");
      var r := ReplaceAll(s, "-", " ");
      assert r == (if s[..1] == "-" then " " else [s[0]]) + u;
      assert forall k :: 1 <= k < |s| ==> s[k] == s[1..][k - 1];
    }
  }

  /** Where s.replace("9 1", "9-1") differs from s: the middle of each "9 1"
      becomes '-', every other character stays. */
  lemma {:induction false} NineOneReplacedAt(s: string)
    ensures var r := ReplaceAll(s, "9 1", "9-1");
      && |r| == |s|
      && forall k :: 0 <= k < |s| ==> r[k] == if k > 0 && HasAt(s, k - 1, "9 1") then '-' else s[k]
    decreases |s|
  {
    var r := ReplaceAll(s, "9 1", "9-1");
    if |s| < 3 {
      assert r == s;
    } else if s[..3] == "9 1" {
      NineOneReplacedAt(s[3..]);
      var u := ReplaceAll(s[3..], "9 1", "9-1");
      assert r == "9-1" + u;
      forall k | 0 <= k < |s|
        ensures r[k] == if k > 0 && HasAt(s, k - 1, "9 1") then '-' else s[k]
      {
        assert s[0] == '9' && s[1] == ' ' && s[2] == '1';
        if k >= 4 {
          HasAtAfter(s[..3], s[3..], k - 1, "9 1");
          assert s[..3] + s[3..] == s;
          assert r[k] == u[k - 3] && s[k] == s[3..][k - 3];
        } else if k == 3 {
          assert r[k] == u[0] && s[k] == s[3..][0];
          assert !HasAt(s, 2, "9 1");
        } else if k == 2 {
          assert !HasAt(s, 1, "9 1");
        } else if k == 1 {
          assert HasAt(s, 0, "9 1");
        }
      }
    } else {
      NineOneReplacedAt(s[1..]);
      var u := ReplaceAll(s[1..], "9 1", "9-1");
      assert r == [s[0]] + u;
      forall k | 0 <= k < |s|
        ensures r[k] == if k > 0 && HasAt(s, k - 1, "9 1") then '-' else s[k]
      {
        if k >= 2 {
          HasAtAfter(s[..1], s[1..], k - 1, "9 1");
          assert s[..1] + s[1..] == s;
          assert r[k] == u[k - 1] && s[k] == s[1..][k - 1];
        } else if k == 1 {
          assert r[k] == u[0] && s[k] == s[1..][0];
          assert !HasAt(s, 0, "9 1");
        }
      }
    }
  }

  /* ---------- case ---------- */

  predicate IsUpper(c: char) { 'A' <= c <= 'Z' }

  predicate IsLower(c: char) { 'a' <= c <= 'z' }

  /** A cased character, in the sense of str.title (ASCII letters). */
  predicate IsLetter(c: char) { IsUpper(c) || IsLower(c) }

  function LowerChar(c: char): char
  {
    if IsUpper(c) then (c as int + 32) as char else c
  }

  function UpperChar(c: char): char
  {
    if IsLower(c) then (c as int - 32) as char else c
  }

  /** str.lower() */
  function Lower(s: string): (r: string)
    ensures |r| == |s|
  {
    seq(|s|, i requires 0 <= i < |s| => LowerChar(s[i]))
  }

  /** str.title() scanning from the left; `prevCased` says whether the character
      before s was cased. */
  function TitleFrom(s: string, prevCased: bool): string
  {
    if s == [] then []
    else
      var c := s[0];
      [if !IsLetter(c) then c else if prevCased then LowerChar(c) else UpperChar(c)]
        + TitleFrom(s[1..], IsLetter(c))
  }

  /** str.title() */
  function Title(s: string): string
  {
    TitleFrom(s, false)
  }

  /** What str.title() puts at index k: a letter is upper case when it starts a
      word (nothing cased right before it) and lower case otherwise; every other
      character is kept. */
  function TitleCharAt(s: string, k: nat): char
    requires k < |s|
  {
    var c := s[k];
    if !IsLetter(c) then c
    else if k > 0 && IsLetter(s[k - 1]) then LowerChar(c)
    else UpperChar(c)
  }

  lemma {:induction false} TitleFromAt(s: string, prevCased: bool, k: nat)
    requires k < |s|
    ensures |TitleFrom(s, prevCased)| == |s|
    ensures TitleFrom(s, prevCased)[k] ==
      if !IsLetter(s[k]) then s[k]
      else if (if k == 0 then prevCased else IsLetter(s[k - 1])) then LowerChar(s[k])
      else UpperChar(s[k])
  {
    if k > 0 {
      TitleFromAt(s[1..], IsLetter(s[0]), k - 1);
    } else if |s| > 1 {
      TitleFromAt(s[1..], IsLetter(s[0]), 0);
    }
  }

  /** str.title() keeps the length and works character by character as TitleCharAt says. */
  lemma TitleAt(s: string)
    ensures |Title(s)| == |s|
    ensures forall k :: 0 <= k < |s| ==> Title(s)[k] == TitleCharAt(s, k)
  {
    if |s| > 0 {
      TitleFromAt(s, false, 0);
    }
    forall k | 0 <= k < |s|
      ensures Title(s)[k] == TitleCharAt(s, k)
    {
      TitleFromAt(s, false, k);
    }
  }

  /** Characters other than letters pass through str.title() unchanged. */
  lemma TitleKeepsNonLetters(s: string, k: nat)
    requires k < |s| && !IsLetter(s[k])
    ensures |Title(s)| == |s| && Title(s)[k] == s[k]
  {
    TitleAt(s);
  }

  /** str.title() puts a given non-letter at index k exactly where s has it: a
      letter only ever becomes a letter. */
  lemma TitleNonLetter(s: string, k: nat, c: char)
    requires k < |s| && !IsLetter(c)
    ensures |Title(s)| == |s| && (Title(s)[k] == c <==> s[k] == c)
  {
    TitleAt(s);
  }

  /** "9 1" at j, character by character. */
  lemma NineOneAtChars(s: string, j: int)
    requires 0 <= j && j + 3 <= |s|
    ensures HasAt(s, j, "9 1") <==> s[j] == '9' && s[j + 1] == ' ' && s[j + 2] == '1'
  {
    if s[j] == '9' && s[j + 1] == ' ' && s[j + 2] == '1' {
      assert s[j..j + 3] == "9 1";
    }
  }

  /** str.title() neither makes nor breaks a "9 1": it has no letter. */
  lemma TitleNineOne(s: string, j: int)
    ensures HasAt(Title(s), j, "9 1") <==> HasAt(s, j, "9 1")
  {
    TitleAt(s);
    if 0 <= j && j + 3 <= |s| {
      TitleNonLetter(s, j, '9');
      TitleNonLetter(s, j + 1, ' ');
      TitleNonLetter(s, j + 2, '1');
      NineOneAtChars(s, j);
      NineOneAtChars(Title(s), j);
    }
  }

  /* ---------- whitespace ---------- */

  /** str.isspace() for one character: Python's whitespace set. */
  predicate IsSpace(c: char)
  {
    c == ' ' || '\t' <= c <= '\r' || '\U{1c}' <= c <= '\U{1f}' || c == '\U{85}'
    || c == '\U{a0}' || c == '\U{1680}' || '\U{2000}' <= c <= '\U{200a}'
    || c == '\U{2028}' || c == '\U{2029}' || c == '\U{202f}' || c == '\U{205f}'
    || c == '\U{3000}'
  }

  function StripStart(s: string): (r: string)
    ensures |r| <= |s| && r == s[|s| - |r|..]
    ensures r == [] || !IsSpace(r[0])
  {
    if s != [] && IsSpace(s[0]) then StripStart(s[1..]) else s
  }

  function StripEnd(s: string): (r: string)
    ensures |r| <= |s| && r == s[..|r|]
    ensures r == [] || !IsSpace(r[|r| - 1])
  {
    if s != [] && IsSpace(s[|s| - 1]) then StripEnd(s[..|s| - 1]) else s
  }

  /** str.strip(): drops leading and trailing whitespace. */
  function Strip(s: string): (r: string)
    ensures r == [] || (!IsSpace(r[0]) && !IsSpace(r[|r| - 1]))
    ensures exists i, j :: 0 <= i <= j <= |s| && r == s[i..j]
  {
    var a := StripStart(s);
    var r := StripEnd(a);
    assert r == s[|s| - |a|..|s| - |a| + |r|];
    r
  }

  /** A string that neither starts nor ends with whitespace is left as it is by strip(). */
  lemma StripUnspaced(s: string)
    requires s == [] || (!IsSpace(s[0]) && !IsSpace(s[|s| - 1]))
    ensures Strip(s) == s
  {
  }

  /** strip() removes blank padding around a word that has no blank at its ends. */
  lemma StripPadded(pad: string, word: string, tail: string)
    requires forall k :: 0 <= k < |pad| ==> IsSpace(pad[k])
    requires forall k :: 0 <= k < |tail| ==> IsSpace(tail[k])
    requires word != [] && !IsSpace(word[0]) && !IsSpace(word[|word| - 1])
    ensures Strip(pad + word + tail) == word
  {
    assert pad + word + tail == pad + (word + tail);
    StripStartPad(pad, word + tail);
    StripEndPad(word, tail);
  }

  lemma {:induction false} StripStartPad(pad: string, rest: string)
    requires forall k :: 0 <= k < |pad| ==> IsSpace(pad[k])
    requires rest != [] && !IsSpace(rest[0])
    ensures StripStart(pad + rest) == rest
  {
    if pad != [] {
      assert (pad + rest)[1..] == pad[1..] + rest;
      StripStartPad(pad[1..], rest);
    } else {
      assert pad + rest == rest;
    }
  }

  lemma {:induction false} StripEndPad(front: string, tail: string)
    requires forall k :: 0 <= k < |tail| ==> IsSpace(tail[k])
    requires front != [] && !IsSpace(front[|front| - 1])
    ensures StripEnd(front + tail) == front
  {
    if tail != [] {
      assert (front + tail)[..|front + tail| - 1] == front + tail[..|tail| - 1];
      StripEndPad(front, tail[..|tail| - 1]);
    } else {
      assert front + tail == front;
    }
  }

  /* ---------- paths ---------- */

  /** posixpath.join(a, b) */
  function PathJoin(a: string, b: string): (r: string)
    ensures b != [] && b[0] == '/' ==> r == b
    ensures (b == [] || b[0] != '/') && a != [] && a[|a| - 1] != '/' ==> r == a + "/" + b
    ensures (b == [] || b[0] != '/') && (a == [] || a[|a| - 1] == '/') ==> r == a + b
  {
    if b != [] && b[0] == '/' then b
    else if a == [] || a[|a| - 1] == '/' then a + b
    else a + "/" + b
  }

  /** The text after the last '/' (all of s when it has none). */
  function LastSegment(s: string): (r: string)
    ensures |r| <= |s| && r == s[|s| - |r|..]
    ensures '/' !in r
  {
    if s == [] || s[|s| - 1] == '/' then []
    else LastSegment(s[..|s| - 1]) + [s[|s| - 1]]
  }

  /** A name without '/' is what follows the last '/' of p + "/" + name. */
  lemma {:induction false} LastSegmentAfterSlash(p: string, name: string)
    requires '/' !in name
    ensures LastSegment(p + "/" + name) == name
  {
    if name != [] {
      var s := p + "/" + name;
      var init := name[..|name| - 1];
      assert s[..|s| - 1] == p + "/" + init;
      LastSegmentAfterSlash(p, init);
      assert name == init + [name[|name| - 1]];
    } else {
      assert (p + "/" + name)[|p + "/" + name| - 1] == '/';
    }
  }
}
