/**
 * Widget names: the default name a new widget gets (the palette class
 * name with its first letter lower-cased, then the first of base, base1,
 * base2, ... that is not taken) and the identifier rule a rename must meet.
 */
module Names {

  /** ASCII lower-casing of one character (other characters are kept). */
  function ToLower(c: char): (r: char)
    ensures 'A' <= c <= 'Z' ==> 'a' <= r <= 'z' && r as int - c as int == 32
    ensures !('A' <= c <= 'Z') ==> r == c
  {
    if 'A' <= c <= 'Z' then (c as int + 32) as char else c
  }

  /** `name.substring(0, 1).toLowerCase() + name.substring(1)`. */
  function LowerFirst(name: string): (r: string)
    ensures |r| == |name|
    ensures |name| > 0 ==> r[0] == ToLower(name[0]) && r[1..] == name[1..]
  {
    if |name| == 0 then name else [ToLower(name[0])] + name[1..]
  }

  function DigitChar(d: nat): (c: char)
    requires d < 10
    ensures '0' <= c <= '9' && c as int - '0' as int == d
  {
    ('0' as int + d) as char
  }

  /** The decimal text of `n`, as a template literal `${n}` writes it. */
  function Decimal(n: nat): (r: string)
    ensures |r| >= 1
    ensures n >= 10 ==> |r| >= 2
    ensures forall i :: 0 <= i < |r| ==> '0' <= r[i] <= '9'
  {
    if n < 10 then [DigitChar(n)] else Decimal(n / 10) + [DigitChar(n % 10)]
  }

  /** Different numbers have different decimal texts. */
  lemma {:induction false} DecimalInjective(a: nat, b: nat)
    requires Decimal(a) == Decimal(b)
    ensures a == b
  {
    var da, db := Decimal(a), Decimal(b);
    if a < 10 || b < 10 {
      assert |da| == 1 && |db| == 1;
      assert a < 10 && b < 10;
      assert DigitChar(a) == da[0] == db[0] == DigitChar(b);
    } else {
      assert da == Decimal(a / 10) + [DigitChar(a % 10)];
      assert db == Decimal(b / 10) + [DigitChar(b % 10)];
      assert da[|da| - 1] == DigitChar(a % 10) && db[|db| - 1] == DigitChar(b % 10);
      assert Decimal(a / 10) == da[..|da| - 1] == db[..|db| - 1] == Decimal(b / 10);
      DecimalInjective(a / 10, b / 10);
    }
  }

  /** The name tried at attempt `k`: `base` first, then `base` + k. */
  function Candidate(base: string, k: nat): string {
    if k == 0 then base else base + Decimal(k)
  }

  /** No name is tried twice, so the search meets a new name at every attempt. */
  lemma CandidateInjective(base: string, j: nat, k: nat)
    requires Candidate(base, j) == Candidate(base, k)
    ensures j == k
  {
    if j != 0 && k != 0 {
      var cj, ck := Candidate(base, j), Candidate(base, k);
      assert cj[|base|..] == Decimal(j) && ck[|base|..] == Decimal(k);
      DecimalInjective(j, k);
    } else if j != k {
      assert false;
    }
  }

  /**
   * A set that holds the first `n` candidates has at least `n` elements,
   * since no candidate is tried twice.
   */
  lemma {:induction false} CandidatesBound(keys: set<string>, base: string, n: nat)
    requires forall j :: 0 <= j < n ==> Candidate(base, j) in keys
    ensures n <= |keys|
  {
    if n > 0 {
      var last := Candidate(base, n - 1);
      forall j | 0 <= j < n - 1 ensures Candidate(base, j) in keys - {last} {
        if Candidate(base, j) == last { CandidateInjective(base, j, n - 1); }
      }
      CandidatesBound(keys - {last}, base, n - 1);
    }
  }

  /**
   * The name-deduplication loop of addWidget: starting from `base`, try
   * base1, base2, ... until a name is not a key of `taken`. Returns the
   * name and the attempt number it was found at (0 for `base` itself).
   */
  method FreeName<V>(taken: map<string, V>, base: string) returns (name: string, attempt: nat)
    ensures name !in taken
    ensures name == Candidate(base, attempt)
    ensures forall j :: 0 <= j < attempt ==> Candidate(base, j) in taken
  {
    name := base;
    var nameAttempt: nat := 1;
    while name in taken
      invariant 1 <= nameAttempt
      invariant name == Candidate(base, nameAttempt - 1)
      invariant forall j :: 0 <= j < nameAttempt - 1 ==> Candidate(base, j) in taken
      decreases |taken| - (nameAttempt - 1)
    {
      CandidatesBound(taken.Keys, base, nameAttempt);
      name := base + Decimal(nameAttempt);
      nameAttempt := nameAttempt + 1;
    }
    attempt := nameAttempt - 1;
  }

  predicate IdentifierStart(c: char) {
    'a' <= c <= 'z' || 'A' <= c <= 'Z' || c == '_'
  }

  predicate IdentifierPart(c: char) {
    IdentifierStart(c) || '0' <= c <= '9'
  }

  /** `s.match(/^[a-zA-Z_][a-zA-Z_0-9]*$/)` succeeds. */
  predicate IsIdentifier(s: string) {
    |s| > 0 && IdentifierStart(s[0]) && forall i :: 1 <= i < |s| ==> IdentifierPart(s[i])
  }

  /** A default name derived from an identifier base is itself an identifier. */
  lemma CandidateIsIdentifier(base: string, k: nat)
    requires IsIdentifier(base)
    ensures IsIdentifier(Candidate(base, k))
  {
    if k != 0 {
      var c := Candidate(base, k);
      forall i | 1 <= i < |c| ensures IdentifierPart(c[i]) {
        if i >= |base| { assert c[i] == Decimal(k)[i - |base|]; }
      }
    }
  }

  /** The identifier rule on the examples a rename may be given. */
  lemma IdentifierExamples()
    ensures !IsIdentifier("1bad") && !IsIdentifier("") && !IsIdentifier("a-b")
    ensures IsIdentifier("a") && IsIdentifier("b") && IsIdentifier("_x9")
  {
    assert "a-b"[1] == '-';
  }
}
