/**
 * The registration password policy, the pattern
 *   ^(?=.*[a-z])(?=.*[A-Z])(?=.*\d)(?=.*[@$!%*#?&])[A-Za-z\d@$!#%*?&]{8,20}$
 * read as character-class predicates over ASCII, in two forms: `SearchMatches` is `re.search` with the
 * pattern as written, and `FullMatches` is the same pattern anchored at the very end of the string.
 */
module PasswordPolicy {
  import opened Text

  /** The four classes the lookaheads demand. */
  datatype Class = Lower | Upper | Digit | Special

  const Specials: set<char> := {'@', '$', '!', '%', '*', '#', '?', '&'}

  predicate InClass(c: char, k: Class)
  {
    match k
    case Lower => 'a' <= c <= 'z'
    case Upper => 'A' <= c <= 'Z'
    case Digit => IsDigit(c)
    case Special => c in Specials
  }

  /** The repeated class `[A-Za-z\d@$!#%*?&]`. */
  predicate Allowed(c: char)
  {
    InClass(c, Lower) || InClass(c, Upper) || InClass(c, Digit) || InClass(c, Special)
  }

  /** `(?=.*X)` tried at position 0: `.` stops at a newline, so a member of `k` must come before the first one. */
  predicate LookaheadFinds(p: string, k: Class)
  {
    exists i :: 0 <= i < |p| && InClass(p[i], k) && forall j :: 0 <= j < i ==> p[j] != '\n'
  }

  predicate AllLookaheads(p: string)
  {
    LookaheadFinds(p, Lower) && LookaheadFinds(p, Upper) && LookaheadFinds(p, Digit) && LookaheadFinds(p, Special)
  }

  /** `[...]{8,20}` from position 0 can stop at position `e`. */
  predicate BodyEndsAt(p: string, e: nat)
  {
    8 <= e <= 20 && e <= |p| && forall j :: 0 <= j < e ==> Allowed(p[j])
  }

  /** Python's `$` without MULTILINE: the end of the string, or just before a newline that ends it. */
  predicate DollarAt(p: string, e: nat)
  {
    e == |p| || (e + 1 == |p| && p[e] == '\n')
  }

  /** `re.search(pattern, p)` succeeds (`^` pins the match to position 0). */
  predicate SearchMatches(p: string)
  {
    AllLookaheads(p) && exists e: nat :: e <= |p| && BodyEndsAt(p, e) && DollarAt(p, e)
  }

  /** The pattern with its final anchor at the very end of the string, as `re.fullmatch` would test it. */
  predicate FullMatches(p: string)
  {
    AllLookaheads(p) && BodyEndsAt(p, |p|)
  }

  /** The policy in words: 8 to 20 allowed characters, with a lower-case letter, an upper-case letter, a digit and a symbol. */
  predicate StrongPassword(p: string)
  {
    && 8 <= |p| <= 20
    && (forall i :: 0 <= i < |p| ==> Allowed(p[i]))
    && (exists i :: 0 <= i < |p| && InClass(p[i], Lower))
    && (exists i :: 0 <= i < |p| && InClass(p[i], Upper))
    && (exists i :: 0 <= i < |p| && InClass(p[i], Digit))
    && (exists i :: 0 <= i < |p| && InClass(p[i], Special))
  }

  /** In a string of allowed characters there is no newline, so each lookahead is a plain "occurs somewhere". */
  lemma LookaheadInAllowed(p: string, k: Class)
    requires forall i :: 0 <= i < |p| ==> Allowed(p[i])
    ensures LookaheadFinds(p, k) <==> exists i :: 0 <= i < |p| && InClass(p[i], k)
  {
    if i :| 0 <= i < |p| && InClass(p[i], k) {
      assert forall j :: 0 <= j < i ==> p[j] != '\n' by {
        forall j | 0 <= j < i ensures p[j] != '\n' {
          assert Allowed(p[j]);
        }
      }
    }
  }

  /** The end-anchored pattern accepts exactly the passwords the policy describes. */
  lemma FullMatchIsPolicy(p: string)
    ensures FullMatches(p) <==> StrongPassword(p)
  {
    if BodyEndsAt(p, |p|) || StrongPassword(p) {
      LookaheadInAllowed(p, Lower);
      LookaheadInAllowed(p, Upper);
      LookaheadInAllowed(p, Digit);
      LookaheadInAllowed(p, Special);
    }
  }

  /** A lookahead that succeeds on `q` still succeeds once a newline is appended. */
  lemma LookaheadExtend(q: string, k: Class)
    requires LookaheadFinds(q, k)
    ensures LookaheadFinds(q + "\n", k)
  {
    var i :| 0 <= i < |q| && InClass(q[i], k) && forall j :: 0 <= j < i ==> q[j] != '\n';
    assert (q + "\n")[i] == q[i];
  }

  /** A lookahead that succeeds on `q + "\n"` finds its character inside `q`. */
  lemma LookaheadShrink(q: string, k: Class)
    requires LookaheadFinds(q + "\n", k)
    ensures LookaheadFinds(q, k)
  {
    var p := q + "\n";
    var i :| 0 <= i < |p| && InClass(p[i], k) && forall j :: 0 <= j < i ==> p[j] != '\n';
    assert i < |q|;
    assert q[i] == p[i];
    assert forall j :: 0 <= j < i ==> q[j] == p[j];
  }

  /**
   * What `re.search` with the pattern as written accepts: the passwords of the policy, and also each of
   * them followed by a single newline.
   */
  lemma SearchMatchesSpec(p: string)
    ensures SearchMatches(p) <==>
      StrongPassword(p) || (|p| >= 1 && p[|p| - 1] == '\n' && StrongPassword(p[..|p| - 1]))
  {
    if SearchMatches(p) {
      var e: nat :| e <= |p| && BodyEndsAt(p, e) && DollarAt(p, e);
      if e == |p| {
        FullMatchIsPolicy(p);
      } else {
        var q := p[..e];
        assert p == q + "\n";
        assert BodyEndsAt(q, |q|);
        LookaheadShrink(q, Lower);
        LookaheadShrink(q, Upper);
        LookaheadShrink(q, Digit);
        LookaheadShrink(q, Special);
        FullMatchIsPolicy(q);
      }
    }
    if StrongPassword(p) {
      FullMatchIsPolicy(p);
      assert BodyEndsAt(p, |p|) && DollarAt(p, |p|);
    } else if |p| >= 1 && p[|p| - 1] == '\n' && StrongPassword(p[..|p| - 1]) {
      var q := p[..|p| - 1];
      assert p == q + "\n";
      FullMatchIsPolicy(q);
      LookaheadExtend(q, Lower);
      LookaheadExtend(q, Upper);
      LookaheadExtend(q, Digit);
      LookaheadExtend(q, Special);
      assert BodyEndsAt(p, |q|) && DollarAt(p, |q|);
    }
  }

  /** No allowed character is whitespace. */
  lemma AllowedNotSpace(c: char)
    requires Allowed(c)
    ensures c !in Whitespace
  {
  }

  /** `strip()` leaves a policy password as it is. */
  lemma StrongPasswordStripped(p: string)
    requires StrongPassword(p)
    ensures Strip(p) == p
  {
    AllowedNotSpace(p[0]);
    AllowedNotSpace(p[|p| - 1]);
    StripNoop(p);
  }

  /** `strip()` removes the newline after a policy password and nothing else. */
  lemma NewlineStripped(q: string)
    requires StrongPassword(q)
    ensures Strip(q + "\n") == q
  {
    AllowedNotSpace(q[0]);
    AllowedNotSpace(q[|q| - 1]);
    StripNewline(q);
  }

  /** "Abcdef1!" meets the policy and "abc" does not. */
  lemma PolicyExamples()
    ensures StrongPassword("Abcdef1!")
    ensures !StrongPassword("abc")
  {
    var p := "Abcdef1!";
    assert InClass(p[1], Lower) && InClass(p[0], Upper) && InClass(p[6], Digit) && InClass(p[7], Special);
  }

  /**
   * The pattern as written lets a password end in a newline: any policy password followed by "\n"
   * passes `re.search` although a newline is not an allowed character, while the end-anchored pattern
   * refuses it.
   */
  lemma TrailingNewlineAccepted(q: string)
    requires StrongPassword(q)
    ensures SearchMatches(q + "\n")
    ensures !StrongPassword(q + "\n") && !FullMatches(q + "\n")
  {
    var p := q + "\n";
    assert p[..|p| - 1] == q;
    SearchMatchesSpec(p);
    assert !Allowed(p[|q|]);
    FullMatchIsPolicy(p);
  }

  /** The concrete password "Abcdef1!\n" shows the discrepancy. */
  lemma TrailingNewlineExample()
    ensures SearchMatches("Abcdef1!\n") && !FullMatches("Abcdef1!\n")
  {
    PolicyExamples();
    TrailingNewlineAccepted("Abcdef1!");
    assert "Abcdef1!" + "\n" == "Abcdef1!\n";
  }
}
