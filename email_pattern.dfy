/** The email check of the upload handler
    (src/controller/AdminController/leadController.js, lines 91-92): the
    pattern `^[^\s@]+@[^\s@]+\.[^\s@]+$`, and the plain characterisation of
    the strings it accepts. */
module EmailPattern {
  import opened JsValues

  /** A character the class `[^\s@]` accepts. */
  predicate Plain(c: char) { !IsSpace(c) && c != '@' }

  predicate AllPlain(s: string) { forall k | 0 <= k < |s| :: Plain(s[k]) }

  /** The anchored pattern: three non-empty runs of plain characters, the
      first two joined by '@', the last two by '.'. */
  ghost predicate MatchesPattern(s: string) {
    exists i, j | 0 < i && i + 1 < j && j + 1 < |s| ::
      s[i] == '@' && s[j] == '.' && AllPlain(s[..i]) && AllPlain(s[i + 1..j]) && AllPlain(s[j + 1..])
  }

  function Count(c: char, s: string): (n: nat)
    ensures n == 0 <==> forall k | 0 <= k < |s| :: s[k] != c
  {
    if s == [] then 0
    else
      var rest := Count(c, s[1..]);
      assert forall k | 1 <= k < |s| :: s[k] == s[1..][k - 1];
      (if s[0] == c then 1 else 0) + rest
  }

  lemma {:induction false} CountSplit(c: char, s: string, m: nat)
    requires m <= |s|
    ensures Count(c, s) == Count(c, s[..m]) + Count(c, s[m..])
  {
    if m > 0 {
      CountSplit(c, s[1..], m - 1);
      assert s[1..][..m - 1] == s[..m][1..];
      assert s[1..][m - 1..] == s[m..];
    }
  }

  /** Two occurrences of `c` make the count at least two. */
  lemma CountTwo(c: char, s: string, i: nat, j: nat)
    requires i < j < |s| && s[i] == c && s[j] == c
    ensures Count(c, s) >= 2
  {
    CountSplit(c, s, j);
    assert s[..j][i] == c;
    assert s[j..][0] == c;
  }

  /** The strings the email check accepts: no white space, exactly one '@'
      with something before it, and after it a '.' that is neither the first
      nor the last character of the part after the '@'. */
  predicate IsEmail(s: string) {
    && (forall k | 0 <= k < |s| :: !IsSpace(s[k]))
    && Count('@', s) == 1
    && exists i | 0 < i < |s| :: s[i] == '@' && exists j | i + 1 < j < |s| - 1 :: s[j] == '.'
  }

  /** Every character of a plain slice is plain. */
  lemma PlainSlice(s: string, lo: nat, hi: nat)
    requires lo <= hi <= |s| && AllPlain(s[lo..hi])
    ensures forall k | lo <= k < hi :: Plain(s[k])
  {
    forall k | lo <= k < hi ensures Plain(s[k]) {
      assert s[lo..hi][k - lo] == s[k];
    }
  }

  /** A character that occurs at exactly one position is counted once. */
  lemma CountOnce(c: char, s: string, i: nat)
    requires i < |s| && s[i] == c
    requires forall k | 0 <= k < |s| && k != i :: s[k] != c
    ensures Count(c, s) == 1
  {
    var tail := s[i + 1..];
    assert Count(c, tail) == 0 by {
      forall k | 0 <= k < |tail| ensures tail[k] != c { assert tail[k] == s[i + 1 + k]; }
    }
    assert Count(c, s[..i]) == 0 by {
      forall k | 0 <= k < i ensures s[..i][k] != c { assert s[..i][k] == s[k]; }
    }
    CountSplit(c, s, i);
    assert s[i..][1..] == tail;
  }

  /** The three runs of the pattern hold no white space and no '@'. */
  lemma PatternRuns(s: string, i: nat, j: nat)
    requires 0 < i && i + 1 < j && j + 1 < |s| && s[i] == '@' && s[j] == '.'
    requires AllPlain(s[..i]) && AllPlain(s[i + 1..j]) && AllPlain(s[j + 1..])
    ensures forall k | 0 <= k < |s| :: !IsSpace(s[k]) && (k != i ==> s[k] != '@')
  {
    assert s[..i] == s[0..i] && s[j + 1..] == s[j + 1..|s|];
    PlainSlice(s, 0, i);
    PlainSlice(s, i + 1, j);
    PlainSlice(s, j + 1, |s|);
    forall k | 0 <= k < |s| ensures !IsSpace(s[k]) && (k != i ==> s[k] != '@') {
      if k == i || k == j {
        assert !IsSpace(s[k]);
      }
    }
  }

  lemma PatternImpliesEmail(s: string)
    requires MatchesPattern(s)
    ensures IsEmail(s)
  {
    var i, j :| 0 < i && i + 1 < j && j + 1 < |s| && s[i] == '@' && s[j] == '.'
                && AllPlain(s[..i]) && AllPlain(s[i + 1..j]) && AllPlain(s[j + 1..]);
    PatternRuns(s, i, j);
    CountOnce('@', s, i);
  }

  lemma EmailImpliesPattern(s: string)
    requires IsEmail(s)
    ensures MatchesPattern(s)
  {
    var i :| 0 < i < |s| && s[i] == '@' && exists j | i + 1 < j < |s| - 1 :: s[j] == '.';
    var j :| i + 1 < j < |s| - 1 && s[j] == '.';
    forall k | 0 <= k < |s| && k != i ensures s[k] != '@' {
      if s[k] == '@' {
        if k < i { CountTwo('@', s, k, i); } else { CountTwo('@', s, i, k); }
      }
    }
    assert AllPlain(s[..i]) by {
      forall k | 0 <= k < i ensures Plain(s[..i][k]) { assert s[..i][k] == s[k]; }
    }
    var domain, tld := s[i + 1..j], s[j + 1..];
    assert AllPlain(domain) by {
      forall k | 0 <= k < |domain| ensures Plain(domain[k]) { assert domain[k] == s[i + 1 + k]; }
    }
    assert AllPlain(tld) by {
      forall k | 0 <= k < |tld| ensures Plain(tld[k]) { assert tld[k] == s[j + 1 + k]; }
    }
  }

  /** The characterisation accepts exactly what the pattern accepts. */
  lemma IsEmailIffPattern(s: string)
    ensures IsEmail(s) <==> MatchesPattern(s)
  {
    if IsEmail(s) { EmailImpliesPattern(s); }
    if MatchesPattern(s) { PatternImpliesEmail(s); }
  }

  /** Lower-casing leaves the '@', the '.' and white space where they are. */
  lemma {:induction false} LowerCount(c: char, s: string)
    requires !IsUpperLetter(c) && !IsLowerLetter(c)
    ensures Count(c, Lower(s)) == Count(c, s)
  {
    if s != [] {
      assert Lower(s)[1..] == Lower(s[1..]);
      LowerCount(c, s[1..]);
    }
  }

  lemma LowerCharSpace(c: char)
    ensures IsSpace(LowerChar(c)) <==> IsSpace(c)
  {
  }

  /** The lead's stored email (`email.toLowerCase()`) still passes the check. */
  lemma LowerKeepsEmail(s: string)
    requires IsEmail(s)
    ensures IsEmail(Lower(s))
  {
    var t := Lower(s);
    LowerAt(s);
    LowerCount('@', s);
    var i :| 0 < i < |s| && s[i] == '@' && exists j | i + 1 < j < |s| - 1 :: s[j] == '.';
    var j :| i + 1 < j < |s| - 1 && s[j] == '.';
    assert t[i] == '@' && t[j] == '.';
    forall k | 0 <= k < |t| ensures !IsSpace(t[k]) {
      LowerCharSpace(s[k]);
    }
  }

  /** A number in an email column never passes the check: its text has no '@'. */
  lemma NumberIsNoEmail(n: int)
    ensures !IsEmail(IntToString(n))
  {
    var s := IntToString(n);
    assert forall k | 0 <= k < |s| :: s[k] != '@';
  }
}
