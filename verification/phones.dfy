/**
  Phone number discovery and normalisation: `clean_phones` and `get_phones`
  of the scraper. A raw candidate goes through four rewrites in order:

    1. delete every character other than an ASCII digit, `(`, `)`, `+`, space;
    2. replace every run of spaces by a single space;
    3. one left-to-right pass deleting `()` and `( )`;
    4. strip surrounding whitespace;

  and is kept when the result is not empty. Because step 3 runs after
  step 2 and only once, the composition is not idempotent: see
  `NormaliseLeavesDoubleSpace` and `NormaliseLeavesEmptyParens`.
 */
module Phones {
  import opened Base

  /** An ASCII digit, the class `0-9` of the patterns. */
  predicate IsDigit(c: char) {
    '0' <= c <= '9'
  }

  /** Characters that survive step 1. */
  predicate IsPhoneChar(c: char) {
    IsDigit(c) || c == '(' || c == ')' || c == '+' || c == ' '
  }

  /** The characters that carry the number itself. */
  predicate IsDigitOrPlus(c: char) {
    IsDigit(c) || c == '+'
  }

  predicate IsNotSpace(c: char) {
    c != ' '
  }

  /** No space is directly followed by another space. */
  predicate NoDoubleSpace(s: string) {
    |s| < 2 || (!(s[0] == ' ' && s[1] == ' ') && NoDoubleSpace(s[1..]))
  }

  /** The same property stated pairwise over adjacent positions. */
  lemma {:induction false} NoDoubleSpaceByPairs(s: string)
    requires forall i, j | 0 <= i && j == i + 1 && j < |s| :: !(s[i] == ' ' && s[j] == ' ')
    ensures NoDoubleSpace(s)
  {
    if |s| >= 2 {
      var t := s[1..];
      forall i, j | 0 <= i && j == i + 1 && j < |t|
        ensures !(t[i] == ' ' && t[j] == ' ')
      {
        assert t[i] == s[i + 1] && t[j] == s[j + 1];
      }
      NoDoubleSpaceByPairs(t);
    }
  }

  /** Shape of every phone the scraper reports. */
  predicate IsCleanPhone(q: string) {
    && |q| > 0
    && (forall c | c in q :: IsPhoneChar(c))
    && q[0] != ' '
    && q[|q| - 1] != ' '
  }

  // ---------------------------------------------------------------------
  // Step 1: re.sub('[^0-9\(\)\+ ]', '', phone)

  function KeepPhoneChars(s: string): (r: string)
    ensures forall c | c in r :: IsPhoneChar(c)
    ensures |r| <= |s|
  {
    Filter(IsPhoneChar, s)
  }

  /** Step 1 keeps every occurrence of a phone character and nothing else,
      in the original order. */
  lemma KeepPhoneCharsSpec(s: string, t: string, c: char)
    ensures IsPhoneChar(c) ==> multiset(KeepPhoneChars(s))[c] == multiset(s)[c]
    ensures !IsPhoneChar(c) ==> multiset(KeepPhoneChars(s))[c] == 0
    ensures KeepPhoneChars(s + t) == KeepPhoneChars(s) + KeepPhoneChars(t)
  {
    FilterCounts(IsPhoneChar, s, c);
    FilterConcat(IsPhoneChar, s, t);
  }

  // ---------------------------------------------------------------------
  // Step 2: re.sub(' +', ' ', phone)

  /** The suffix of `s` after its leading spaces. */
  function DropLeadingSpaces(s: string): (r: string)
    ensures |r| <= |s|
    ensures forall i | 0 <= i < |s| - |r| :: s[i] == ' '
    ensures r == [] || r[0] != ' '
  {
    if |s| > 0 && s[0] == ' ' then DropLeadingSpaces(s[1..]) else s
  }

  lemma {:induction false} DropLeadingIsSuffix(s: string)
    ensures DropLeadingSpaces(s) == s[|s| - |DropLeadingSpaces(s)|..]
  {
    if |s| > 0 && s[0] == ' ' {
      DropLeadingIsSuffix(s[1..]);
    }
  }

  /** Every maximal run of spaces becomes one space. */
  function CollapseSpaces(s: string): (r: string)
    ensures |r| <= |s|
    ensures NoDoubleSpace(r)
    ensures |s| > 0 ==> |r| > 0 && r[0] == s[0]
    ensures forall c | c in r :: c in s
    decreases |s|
  {
    if |s| == 0 then []
    else if s[0] == ' ' then
      DropLeadingIsSuffix(s[1..]);
      [' '] + CollapseSpaces(DropLeadingSpaces(s[1..]))
    else [s[0]] + CollapseSpaces(s[1..])
  }

  lemma {:induction false} DropLeadingKeepsNonSpaces(s: string)
    ensures Filter(IsNotSpace, DropLeadingSpaces(s)) == Filter(IsNotSpace, s)
  {
    if |s| > 0 && s[0] == ' ' {
      DropLeadingKeepsNonSpaces(s[1..]);
    }
  }

  /** Step 2 touches nothing but spaces. */
  lemma {:induction false} CollapseKeepsNonSpaces(s: string)
    ensures Filter(IsNotSpace, CollapseSpaces(s)) == Filter(IsNotSpace, s)
    decreases |s|
  {
    if |s| > 0 {
      if s[0] == ' ' {
        var t := DropLeadingSpaces(s[1..]);
        CollapseKeepsNonSpaces(t);
        DropLeadingKeepsNonSpaces(s[1..]);
        FilterConcat(IsNotSpace, [' '], CollapseSpaces(t));
      } else {
        CollapseKeepsNonSpaces(s[1..]);
        FilterConcat(IsNotSpace, [s[0]], CollapseSpaces(s[1..]));
      }
    }
  }

  /** A string without double spaces is a fixed point of step 2, so step 2
      on its own is idempotent. */
  lemma {:induction false} CollapseFixesSingleSpaced(s: string)
    requires NoDoubleSpace(s)
    ensures CollapseSpaces(s) == s
  {
    if |s| > 0 {
      assert NoDoubleSpace(s[1..]);
      CollapseFixesSingleSpaced(s[1..]);
      if s[0] == ' ' {
        assert |s| > 1 ==> s[1..][0] != ' ';
        assert DropLeadingSpaces(s[1..]) == s[1..];
      }
    }
  }

  /** Unfolding step 2 after a character that is not a space. */
  lemma CollapseNonSpaceHead(c: char, t: string)
    requires c != ' '
    ensures CollapseSpaces([c] + t) == [c] + CollapseSpaces(t)
  {
    assert ([c] + t)[1..] == t;
  }

  /** Unfolding step 2 after a space: the spaces that follow it go. */
  lemma CollapseSpaceHead(t: string)
    ensures CollapseSpaces([' '] + t) == [' '] + CollapseSpaces(DropLeadingSpaces(t))
  {
    assert ([' '] + t)[1..] == t;
  }

  lemma DropLeadingSpaceHead(t: string)
    ensures DropLeadingSpaces([' '] + t) == DropLeadingSpaces(t)
  {
    assert ([' '] + t)[1..] == t;
  }

  /** Leading spaces of a concatenation: when `x` is all spaces they run
      on into `z`; otherwise they end inside `x`. */
  lemma {:induction false} DropLeadingConcat(x: string, z: string)
    ensures (forall i | 0 <= i < |x| :: x[i] == ' ') ==>
      DropLeadingSpaces(x + z) == DropLeadingSpaces(z)
    ensures (exists i | 0 <= i < |x| :: x[i] != ' ') ==>
      DropLeadingSpaces(x + z) == DropLeadingSpaces(x) + z
  {
    if |x| == 0 {
      assert x + z == z;
    } else if x[0] == ' ' {
      assert (x + z)[1..] == x[1..] + z;
      DropLeadingConcat(x[1..], z);
      if exists i | 0 <= i < |x| :: x[i] != ' ' {
        var i :| 0 <= i < |x| && x[i] != ' ';
        assert x[1..][i - 1] != ' ';
      }
      if forall i | 0 <= i < |x[1..]| :: x[1..][i] == ' ' {
        assert forall i | 0 <= i < |x| :: x[i] == ' ' by {
          forall i | 0 < i < |x| ensures x[i] == ' ' {
            assert x[i] == x[1..][i - 1];
          }
        }
      }
    }
  }

  /** Step 2 treats a run of two spaces like a single space: every run of
      spaces leaves exactly one. With `CollapseFixesSingleSpaced` this
      determines step 2 on every input. */
  lemma CollapseDropsRepeat(a: string, b: string)
    ensures CollapseSpaces(a + [' ', ' '] + b) == CollapseSpaces(a + [' '] + b)
  {
    assert a + [' ', ' '] + b == a + ([' ', ' '] + b);
    assert a + [' '] + b == a + ([' '] + b);
    CollapseDropsRepeatAt(a, b);
  }

  lemma {:induction false} CollapseDropsRepeatAt(a: string, b: string)
    ensures CollapseSpaces(a + ([' ', ' '] + b)) == CollapseSpaces(a + ([' '] + b))
    decreases |a|, 1
  {
    var two := [' ', ' '] + b;
    var one := [' '] + b;
    assert two == [' '] + one;
    if |a| == 0 {
      assert a + two == [' '] + one && a + one == one;
      assert CollapseSpaces(a + two) == [' '] + CollapseSpaces(DropLeadingSpaces(b)) by {
        CollapseSpaceHead(one);
        DropLeadingSpaceHead(b);
      }
      assert CollapseSpaces(a + one) == [' '] + CollapseSpaces(DropLeadingSpaces(b)) by {
        CollapseSpaceHead(b);
      }
    } else {
      var t := a[1..];
      assert a + two == [a[0]] + (t + two);
      assert a + one == [a[0]] + (t + one);
      if a[0] != ' ' {
        CollapseNonSpaceHead(a[0], t + two);
        CollapseNonSpaceHead(a[0], t + one);
        CollapseDropsRepeatAt(t, b);
      } else {
        CollapseSpaceHead(t + two);
        CollapseSpaceHead(t + one);
        CollapseRepeatAfterSpace(t, b);
      }
    }
  }

  /** The step behind `CollapseDropsRepeatAt` after a leading space. */
  lemma {:induction false} CollapseRepeatAfterSpace(t: string, b: string)
    ensures CollapseSpaces(DropLeadingSpaces(t + ([' ', ' '] + b)))
      == CollapseSpaces(DropLeadingSpaces(t + ([' '] + b)))
    decreases |t|, 2
  {
    var two := [' ', ' '] + b;
    var one := [' '] + b;
    DropLeadingConcat(t, two);
    DropLeadingConcat(t, one);
    if forall i | 0 <= i < |t| :: t[i] == ' ' {
      assert two == [' '] + one;
      DropLeadingSpaceHead(one);
      DropLeadingSpaceHead(b);
    } else {
      CollapseDropsRepeatAt(DropLeadingSpaces(t), b);
    }
  }

  // ---------------------------------------------------------------------
  // Step 3: re.sub('\( ?\)', '', phone)

  /** One left-to-right pass over `s` that deletes each non-overlapping
      `( )` or `()`; the optional space is tried first. */
  function RemoveEmptyParens(s: string): (r: string)
    ensures |r| <= |s|
    ensures forall c | c in r :: c in s
  {
    if |s| >= 3 && s[0] == '(' && s[1] == ' ' && s[2] == ')' then RemoveEmptyParens(s[3..])
    else if |s| >= 2 && s[0] == '(' && s[1] == ')' then RemoveEmptyParens(s[2..])
    else if |s| == 0 then []
    else [s[0]] + RemoveEmptyParens(s[1..])
  }

  /** Step 3 only deletes characters: what is left keeps its order. */
  lemma {:induction false} RemoveEmptyParensDeletesOnly(s: string)
    ensures IsSubsequence(RemoveEmptyParens(s), s)
  {
    if |s| >= 3 && s[0] == '(' && s[1] == ' ' && s[2] == ')' {
      RemoveEmptyParensDeletesOnly(s[3..]);
      SubsequenceOfSuffix(RemoveEmptyParens(s[3..]), s, 3);
    } else if |s| >= 2 && s[0] == '(' && s[1] == ')' {
      RemoveEmptyParensDeletesOnly(s[2..]);
      SubsequenceOfSuffix(RemoveEmptyParens(s[2..]), s, 2);
    } else if |s| > 0 {
      RemoveEmptyParensDeletesOnly(s[1..]);
      assert RemoveEmptyParens(s)[1..] == RemoveEmptyParens(s[1..]);
    }
  }

  /** Step 3 deletes only parentheses and spaces: the digits and plus signs
      come through unchanged and in order. */
  lemma {:induction false} RemoveEmptyParensKeepsDigits(s: string)
    ensures Filter(IsDigitOrPlus, RemoveEmptyParens(s)) == Filter(IsDigitOrPlus, s)
  {
    if |s| >= 3 && s[0] == '(' && s[1] == ' ' && s[2] == ')' {
      RemoveEmptyParensKeepsDigits(s[3..]);
      SkipNonDigits(s, 3);
    } else if |s| >= 2 && s[0] == '(' && s[1] == ')' {
      RemoveEmptyParensKeepsDigits(s[2..]);
      SkipNonDigits(s, 2);
    } else if |s| > 0 {
      var rest := RemoveEmptyParens(s[1..]);
      assert RemoveEmptyParens(s) == [s[0]] + rest by {
        RemoveEmptyParensKeepsHead(s);
      }
      RemoveEmptyParensKeepsDigits(s[1..]);
      FilterConcat(IsDigitOrPlus, [s[0]], rest);
      FilterConcat(IsDigitOrPlus, [s[0]], s[1..]);
      assert s == [s[0]] + s[1..];
    }
  }

  /** A prefix without digits or plus signs contributes nothing to them. */
  lemma {:induction false} SkipNonDigits(s: string, n: nat)
    requires n <= |s|
    requires forall i | 0 <= i < n :: !IsDigitOrPlus(s[i])
    ensures Filter(IsDigitOrPlus, s) == Filter(IsDigitOrPlus, s[n..])
  {
    if n > 0 {
      SkipNonDigits(s[1..], n - 1);
      assert s[1..][n - 1..] == s[n..];
    }
  }

  /** Without an opening parenthesis step 3 changes nothing. */
  lemma {:induction false} RemoveEmptyParensWithoutParen(s: string)
    requires '(' !in s
    ensures RemoveEmptyParens(s) == s
  {
    if |s| > 0 {
      assert s[0] != '(';
      assert '(' !in s[1..];
      RemoveEmptyParensWithoutParen(s[1..]);
    }
  }

  /** An empty pair, `()` or `( )`, starts at index `i` of `s`. */
  predicate EmptyPairAt(s: string, i: int) {
    && 0 <= i && i + 1 < |s| && s[i] == '('
    && (s[i + 1] == ')' || (s[i + 1] == ' ' && i + 2 < |s| && s[i + 2] == ')'))
  }

  /** No empty pair occurs anywhere in `s`. */
  predicate NoEmptyPair(s: string) {
    forall i | 0 <= i < |s| :: !EmptyPairAt(s, i)
  }

  lemma NoEmptyPairTail(s: string)
    requires |s| > 0 && NoEmptyPair(s)
    ensures NoEmptyPair(s[1..])
  {
    var t := s[1..];
    forall i | 0 <= i < |t|
      ensures !EmptyPairAt(t, i)
    {
      assert !EmptyPairAt(s, i + 1);
    }
  }

  /** Step 3 keeps every parenthesis and space that is not part of an empty
      pair: a string without one is a fixed point. */
  lemma {:induction false} RemoveEmptyParensFixes(s: string)
    requires NoEmptyPair(s)
    ensures RemoveEmptyParens(s) == s
  {
    if |s| > 0 {
      assert !EmptyPairAt(s, 0);
      RemoveEmptyParensKeepsHead(s);
      NoEmptyPairTail(s);
      RemoveEmptyParensFixes(s[1..]);
    }
  }

  lemma RemoveEmptyParensKeepsHead(s: string)
    requires |s| > 0 && !EmptyPairAt(s, 0)
    ensures RemoveEmptyParens(s) == [s[0]] + RemoveEmptyParens(s[1..])
  {
  }

  lemma RemoveEmptyParensDropsPair(p: string, y: string)
    requires p == "()" || p == "( )"
    ensures RemoveEmptyParens(p + y) == RemoveEmptyParens(y)
  {
    var s := p + y;
    assert s[0] == '(' && s[1] == p[1];
    if p == "()" {
      assert s[2..] == y;
    } else {
      assert s[2] == ')';
      assert s[3..] == y;
    }
  }

  /** An empty pair cannot start inside a pair-free `x` and end in a `q`
      that opens with `(`. */
  lemma NoPairAcross(x: string, q: string)
    requires |x| > 0 && NoEmptyPair(x)
    requires |q| > 0 && q[0] == '('
    ensures !EmptyPairAt(x + q, 0)
  {
    var s := x + q;
    assert !EmptyPairAt(x, 0);
    assert s[0] == x[0];
    if |x| == 1 {
      assert s[1] == '(';
    } else if |x| == 2 {
      assert s[1] == x[1] && s[2] == '(';
    } else {
      assert s[1] == x[1] && s[2] == x[2];
    }
  }

  /** A pair-free prefix comes through step 3 unchanged when what follows
      it opens with `(`. */
  lemma {:induction false} RemoveEmptyParensPassesPrefix(x: string, q: string)
    requires NoEmptyPair(x)
    requires |q| > 0 && q[0] == '('
    ensures RemoveEmptyParens(x + q) == x + RemoveEmptyParens(q)
  {
    if |x| == 0 {
      assert x + q == q;
    } else {
      var s, t := x + q, x[1..];
      assert RemoveEmptyParens(s) == [x[0]] + RemoveEmptyParens(t + q) by {
        NoPairAcross(x, q);
        RemoveEmptyParensKeepsHead(s);
        assert s[1..] == t + q;
      }
      var rq := RemoveEmptyParens(q);
      assert RemoveEmptyParens(t + q) == t + rq by {
        NoEmptyPairTail(x);
        RemoveEmptyParensPassesPrefix(t, q);
      }
      assert [x[0]] + (t + rq) == x + rq by {
        assert x == [x[0]] + t;
      }
    }
  }

  /** Step 3 deletes the first empty pair, passes what precedes it through
      unchanged and carries on after it. With `RemoveEmptyParensFixes` this
      determines step 3 on every input. */
  lemma RemoveEmptyParensFirstPair(x: string, p: string, y: string)
    requires p == "()" || p == "( )"
    requires NoEmptyPair(x)
    ensures RemoveEmptyParens(x + p + y) == x + RemoveEmptyParens(y)
  {
    assert x + p + y == x + (p + y);
    assert (p + y)[0] == '(';
    RemoveEmptyParensPassesPrefix(x, p + y);
    RemoveEmptyParensDropsPair(p, y);
  }

  // ---------------------------------------------------------------------
  // Step 4: phone.strip()

  /** The prefix of `s` before its trailing spaces. */
  function DropTrailingSpaces(s: string): (r: string)
    ensures |r| <= |s|
    ensures forall i | |r| <= i < |s| :: s[i] == ' '
    ensures r == [] || r[|r| - 1] != ' '
  {
    if |s| > 0 && s[|s| - 1] == ' ' then DropTrailingSpaces(s[..|s| - 1]) else s
  }

  lemma {:induction false} DropTrailingIsPrefix(s: string)
    ensures DropTrailingSpaces(s) == s[..|DropTrailingSpaces(s)|]
  {
    if |s| > 0 && s[|s| - 1] == ' ' {
      DropTrailingIsPrefix(s[..|s| - 1]);
    }
  }

  /** `str.strip()`. After step 1 the space is the only whitespace character
      left, so stripping spaces strips all whitespace. */
  function StripSpaces(s: string): (r: string)
    ensures r == [] || (r[0] != ' ' && r[|r| - 1] != ' ')
    ensures |r| <= |s|
    ensures forall c | c in r :: c in s
  {
    var t := DropLeadingSpaces(s);
    var r := DropTrailingSpaces(t);
    DropLeadingIsSuffix(s);
    DropTrailingIsPrefix(t);
    assert |r| > 0 ==> r[0] == t[0];
    r
  }

  lemma {:induction false} DropTrailingKeepsNonSpaces(s: string)
    ensures Filter(IsNotSpace, DropTrailingSpaces(s)) == Filter(IsNotSpace, s)
  {
    if |s| > 0 && s[|s| - 1] == ' ' {
      var u := s[..|s| - 1];
      DropTrailingKeepsNonSpaces(u);
      assert s == u + [' '];
      FilterConcat(IsNotSpace, u, [' ']);
    }
  }

  /** Stripping removes spaces from the two ends only: the result is a
      contiguous piece of the input holding all of its non-space characters. */
  lemma StripSpacesSpec(s: string)
    ensures Contains(s, StripSpaces(s))
    ensures Filter(IsNotSpace, StripSpaces(s)) == Filter(IsNotSpace, s)
  {
    var t := DropLeadingSpaces(s);
    var r := DropTrailingSpaces(t);
    DropLeadingIsSuffix(s);
    DropTrailingIsPrefix(t);
    assert ContainsAt(s, r, |s| - |t|);
    DropLeadingKeepsNonSpaces(s);
    DropTrailingKeepsNonSpaces(t);
  }

  // ---------------------------------------------------------------------
  // The whole rewrite, lines 48-51

  function Normalise(p: string): (r: string)
    ensures forall c | c in r :: IsPhoneChar(c)
    ensures r == [] || (r[0] != ' ' && r[|r| - 1] != ' ')
    ensures |r| <= |p|
  {
    StripSpaces(RemoveEmptyParens(CollapseSpaces(KeepPhoneChars(p))))
  }

  /** Normalisation neither drops nor adds a digit or plus sign: the
      result's digits and plus signs are the candidate's, in order. */
  lemma NormaliseKeepsDigits(p: string)
    ensures Filter(IsDigitOrPlus, Normalise(p)) == Filter(IsDigitOrPlus, p)
  {
    var s1 := KeepPhoneChars(p);
    var s2 := CollapseSpaces(s1);
    var s3 := RemoveEmptyParens(s2);
    var s4 := StripSpaces(s3);
    FilterFilter(IsPhoneChar, IsDigitOrPlus, p);
    CollapseKeepsNonSpaces(s1);
    FilterFilter(IsNotSpace, IsDigitOrPlus, s1);
    FilterFilter(IsNotSpace, IsDigitOrPlus, s2);
    RemoveEmptyParensKeepsDigits(s2);
    StripSpacesSpec(s3);
    FilterFilter(IsNotSpace, IsDigitOrPlus, s3);
    FilterFilter(IsNotSpace, IsDigitOrPlus, s4);
  }

  /** A candidate holding a digit or a plus sign never normalises to "". */
  lemma NormaliseNonEmpty(p: string, i: int)
    requires 0 <= i < |p| && IsDigitOrPlus(p[i])
    ensures Normalise(p) != ""
  {
    NormaliseKeepsDigits(p);
    assert p[i] in Filter(IsDigitOrPlus, p);
  }

  /** A string made of digits and plus signs only, such as an E.164 number,
      is left as it is. */
  lemma NormaliseFixesE164(p: string)
    requires forall i | 0 <= i < |p| :: IsDigitOrPlus(p[i])
    ensures Normalise(p) == p
  {
    var r := Normalise(p);
    NormaliseKeepsDigits(p);
    FilterKeepsAll(IsDigitOrPlus, p);
    FilterKeepsAll(IsDigitOrPlus, r);
  }

  /** A string already in the shape normalisation produces - phone
      characters only, no double space, no empty pair, no space at either
      end, such as `+1 (202) 555 0123` - is left as it is. */
  lemma NormaliseFixesClean(s: string)
    requires forall i | 0 <= i < |s| :: IsPhoneChar(s[i])
    requires NoDoubleSpace(s) && NoEmptyPair(s)
    requires s == [] || (s[0] != ' ' && s[|s| - 1] != ' ')
    ensures Normalise(s) == s
  {
    NormaliseSingleSpaced(s);
    RemoveEmptyParensFixes(s);
    StripFixes(s);
  }

  /** On a string of phone characters without double spaces, steps 1
      and 2 change nothing. */
  lemma NormaliseSingleSpaced(s: string)
    requires forall i | 0 <= i < |s| :: IsPhoneChar(s[i])
    requires NoDoubleSpace(s)
    ensures Normalise(s) == StripSpaces(RemoveEmptyParens(s))
  {
    FilterKeepsAll(IsPhoneChar, s);
    CollapseFixesSingleSpaced(s);
  }

  lemma StripFixes(s: string)
    requires s == [] || (s[0] != ' ' && s[|s| - 1] != ' ')
    ensures StripSpaces(s) == s
  {
    assert DropLeadingSpaces(s) == s;
    assert DropTrailingSpaces(s) == s;
  }

  lemma RemoveParensBetweenSpaces(a: char, b: char)
    requires IsDigit(a) && IsDigit(b)
    ensures RemoveEmptyParens([a, ' ', '(', ' ', ')', ' ', b]) == [a, ' ', ' ', b]
  {
    var s := [a, ' ', '(', ' ', ')', ' ', b];
    var s1 := s[1..];
    var s2 := s1[1..];
    var s5 := s2[3..];
    var s6 := s5[1..];
    assert s1 == [' ', '(', ' ', ')', ' ', b];
    assert s2 == ['(', ' ', ')', ' ', b];
    assert s5 == [' ', b];
    assert s6 == [b];
    assert s6[1..] == [];
    assert RemoveEmptyParens(s6) == [b];
    assert RemoveEmptyParens(s5) == [' ', b];
    assert RemoveEmptyParens(s2) == [' ', b];
    assert RemoveEmptyParens(s1) == [' ', ' ', b];
    assert a != '(';
    assert RemoveEmptyParens(s) == [a] + RemoveEmptyParens(s1);
  }

  lemma CollapseDoubleSpace(a: char, b: char)
    requires IsDigit(a) && IsDigit(b)
    ensures CollapseSpaces([a, ' ', ' ', b]) == [a, ' ', b]
  {
    var t := [b];
    var u := [' '] + t;
    var v := [' '] + u;
    assert DropLeadingSpaces(u) == t by {
      DropLeadingSpaceHead(t);
      assert DropLeadingSpaces(t) == t;
    }
    assert CollapseSpaces(t) == t by {
      CollapseFixesSingleSpaced(t);
    }
    assert CollapseSpaces(v) == u by {
      CollapseSpaceHead(u);
    }
    assert CollapseSpaces([a] + v) == [a] + u by {
      CollapseNonSpaceHead(a, v);
    }
    assert [a] + v == [a, ' ', ' ', b];
    assert [a] + u == [a, ' ', b];
  }

  lemma NormaliseParensBetweenSpaces(a: char, b: char)
    requires IsDigit(a) && IsDigit(b)
    ensures Normalise([a, ' ', '(', ' ', ')', ' ', b]) == [a, ' ', ' ', b]
  {
    var p := [a, ' ', '(', ' ', ')', ' ', b];
    assert forall i, j | 0 <= i && j == i + 1 && j < |p| :: !(p[i] == ' ' && p[j] == ' ');
    NoDoubleSpaceByPairs(p);
    NormaliseSingleSpaced(p);
    RemoveParensBetweenSpaces(a, b);
    StripFixes([a, ' ', ' ', b]);
  }

  lemma NormaliseDoubleSpace(a: char, b: char)
    requires IsDigit(a) && IsDigit(b)
    ensures Normalise([a, ' ', ' ', b]) == [a, ' ', b]
  {
    var p := [a, ' ', ' ', b];
    var q := [a, ' ', b];
    assert KeepPhoneChars(p) == p by {
      assert forall i | 0 <= i < |p| :: IsPhoneChar(p[i]);
      FilterKeepsAll(IsPhoneChar, p);
    }
    assert CollapseSpaces(p) == q by {
      CollapseDoubleSpace(a, b);
    }
    assert RemoveEmptyParens(q) == q by {
      assert '(' !in q;
      RemoveEmptyParensWithoutParen(q);
    }
    assert StripSpaces(q) == q by {
      StripFixes(q);
    }
  }

  /** Normalisation is not idempotent: step 3 runs after step 2, so
      deleting `( )` between two spaces leaves a double space, which a
      second normalisation collapses (`"1 ( ) 2"` gives `"1  2"`, then
      `"1 2"`). */
  lemma NormaliseLeavesDoubleSpace(a: char, b: char)
    requires IsDigit(a) && IsDigit(b)
    ensures Normalise([a, ' ', '(', ' ', ')', ' ', b]) == [a, ' ', ' ', b]
    ensures Normalise(Normalise([a, ' ', '(', ' ', ')', ' ', b])) == [a, ' ', b]
  {
    NormaliseParensBetweenSpaces(a, b);
    NormaliseDoubleSpace(a, b);
  }

  lemma RemoveParensNested()
    ensures RemoveEmptyParens("(())") == "()"
    ensures RemoveEmptyParens("()") == ""
  {
    var s := "(())";
    assert s[1..] == "())";
    assert s[1..][2..] == ")";
    assert ")"[1..] == [];
    assert RemoveEmptyParens(")") == ")";
    assert RemoveEmptyParens("())") == ")";
    assert "()"[2..] == [];
  }

  lemma NormaliseNestedParens()
    ensures Normalise("(())") == "()"
  {
    RemoveParensNested();
    NormaliseSingleSpaced("(())");
    StripFixes("()");
  }

  lemma NormaliseEmptyParens()
    ensures Normalise("()") == ""
  {
    RemoveParensNested();
    NormaliseSingleSpaced("()");
    StripFixes("");
  }

  /** One pass of step 3 can expose a new empty pair: `"(())"` gives `"()"`,
      which a second normalisation deletes. */
  lemma NormaliseLeavesEmptyParens()
    ensures Normalise("(())") == "()"
    ensures Normalise(Normalise("(())")) == ""
  {
    NormaliseNestedParens();
    NormaliseEmptyParens();
  }

  // ---------------------------------------------------------------------
  // clean_phones, lines 45-54

  /** The set built by the loop of `clean_phones`; `list(...)` of it has no
      defined order, so the model keeps the set. */
  function CleanPhones(phones: seq<string>): (r: set<string>)
    ensures forall q | q in r :: IsCleanPhone(q)
    ensures |r| <= |phones|
  {
    if |phones| == 0 then {}
    else
      var rest := CleanPhones(phones[..|phones| - 1]);
      var q := Normalise(phones[|phones| - 1]);
      if q != "" then assert IsCleanPhone(q); rest + {q} else rest
  }

  /** The set holds exactly the non-empty normal forms of the candidates. */
  lemma {:induction false} CleanPhonesMembers(phones: seq<string>, q: string)
    ensures q in CleanPhones(phones) <==> q != "" && IsImageOf(q, Normalise, phones)
  {
    if |phones| > 0 {
      var init := phones[..|phones| - 1];
      var n := Normalise(phones[|phones| - 1]);
      CleanPhonesMembers(init, q);
      ImageSnoc(q, Normalise, phones);
      assert CleanPhones(phones) == CleanPhones(init) + (if n != "" then {n} else {});
    }
  }

  /** Cleaning a concatenation cleans each part. */
  lemma CleanPhonesConcat(a: seq<string>, b: seq<string>)
    ensures CleanPhones(a + b) == CleanPhones(a) + CleanPhones(b)
  {
    forall q
      ensures q in CleanPhones(a + b) <==> q in CleanPhones(a) || q in CleanPhones(b)
    {
      CleanPhonesMembers(a + b, q);
      CleanPhonesMembers(a, q);
      CleanPhonesMembers(b, q);
      ImageConcat(q, Normalise, a, b);
    }
  }

  // ---------------------------------------------------------------------
  // get_phones, lines 61-73

  /** An anchor element; `href` is absent when the attribute is. */
  datatype Anchor = Anchor(href: Option<string>)

  /** Selected by the CSS selector `a[href*=tel\:]`. */
  predicate IsTelLink(a: Anchor) {
    a.href.Some? && Contains(a.href.value, "tel:")
  }

  /** `[a['href'][4:] for a in ...]`: the first four characters are dropped
      wherever `tel:` occurs in the attribute. */
  function TelCandidates(anchors: seq<Anchor>): (r: seq<string>)
    ensures |r| == |Filter(IsTelLink, anchors)|
    ensures forall k | 0 <= k < |r| ::
      IsTelLink(Filter(IsTelLink, anchors)[k]) &&
      r[k] == Filter(IsTelLink, anchors)[k].href.value[4..]
  {
    if |anchors| == 0 then []
    else
      var rest := TelCandidates(anchors[1..]);
      if IsTelLink(anchors[0]) then
        assert Filter(IsTelLink, anchors) == [anchors[0]] + Filter(IsTelLink, anchors[1..]);
        [anchors[0].href.value[4..]] + rest
      else rest
  }

  /** Phones of a page: link candidates followed by the phone library's
      matches, cleaned together. The library matches are given. */
  function GetPhones(anchors: seq<Anchor>, libraryMatches: seq<string>): (r: set<string>)
    ensures forall q | q in r :: IsCleanPhone(q)
    ensures |r| <= |Filter(IsTelLink, anchors)| + |libraryMatches|
  {
    CleanPhones(TelCandidates(anchors) + libraryMatches)
  }

  /** The two strategies contribute independently: a phone is reported
      exactly when it is the normal form of some tel-link candidate or of
      some library match. */
  lemma GetPhonesSpec(anchors: seq<Anchor>, libraryMatches: seq<string>)
    ensures GetPhones(anchors, libraryMatches)
      == CleanPhones(TelCandidates(anchors)) + CleanPhones(libraryMatches)
  {
    CleanPhonesConcat(TelCandidates(anchors), libraryMatches);
  }

  lemma CleanSinglePhone(n: string)
    requires n != "" && Normalise(n) == n
    ensures CleanPhones([n]) == {n}
  {
    assert [n][..0] == [];
  }

  /** A page whose only phone-bearing content is one link `tel:` followed by
      a number of digits and plus signs yields exactly that number. */
  lemma TelLinkPhone(n: string)
    requires |n| > 0
    requires forall i | 0 <= i < |n| :: IsDigitOrPlus(n[i])
    ensures GetPhones([Anchor(Some("tel:" + n))], []) == {n}
  {
    var h := "tel:" + n;
    var anchors := [Anchor(Some(h))];
    assert TelCandidates(anchors) == [n] by {
      assert ContainsAt(h, "tel:", 0);
      assert h[4..] == n;
      assert anchors[1..] == [];
    }
    NormaliseFixesE164(n);
    CleanSinglePhone(n);
    assert TelCandidates(anchors) + [] == [n];
  }

  lemma SingleTelLinkExample()
    ensures GetPhones([Anchor(Some("tel:+12025550123"))], []) == {"+12025550123"}
  {
    var n := "+12025550123";
    assert "tel:+12025550123" == "tel:" + n;
    TelLinkPhone(n);
  }
}
