/** The credential checks of utils/auth.js: password rules, the e-mail pattern and the
    random password generator. */
module AuthUtils {
  import opened JsText

  const MinLength: nat := 8

  /** Outcome of validatePassword: `{ valid: true }` or `{ valid: false, message }`. */
  datatype Verdict = Accepted | Rejected(message: string)

  const TooShortMessage: string := "Пароль должен содержать минимум 8 символов"
  const NoDigitMessage: string := "Пароль должен содержать хотя бы одну цифру"
  const NoLetterMessage: string := "Пароль должен содержать хотя бы одну букву"

  /** The regular-expression class \d: the ASCII digits only. */
  predicate IsDigit(c: char) { '0' <= c <= '9' }

  /** The class [a-zA-Z]. */
  predicate IsAsciiLetter(c: char) { 'a' <= c <= 'z' || 'A' <= c <= 'Z' }

  predicate HasDigit(s: string) { exists i | 0 <= i < |s| :: IsDigit(s[i]) }

  predicate HasLetter(s: string) { exists i | 0 <= i < |s| :: IsAsciiLetter(s[i]) }

  /** validatePassword: the length check first, then the digit check, then the letter check. */
  function ValidatePassword(password: string): (v: Verdict)
    ensures v.Accepted? <==> |password| >= MinLength && HasDigit(password) && HasLetter(password)
    ensures v.Rejected? ==> v.message in {TooShortMessage, NoDigitMessage, NoLetterMessage}
  {
    if |password| < MinLength then Rejected(TooShortMessage)
    else if !HasDigit(password) then Rejected(NoDigitMessage)
    else if !HasLetter(password) then Rejected(NoLetterMessage)
    else Accepted
  }

  /** A password under eight characters is refused for its length, whatever it contains. */
  lemma ShortPasswordRejected(password: string)
    requires |password| < MinLength
    ensures ValidatePassword(password) == Rejected(TooShortMessage)
  {
  }

  /** The digit rule is checked before the letter rule: a long enough password lacking both
      is refused for the missing digit. */
  lemma DigitCheckedBeforeLetter(password: string)
    requires |password| >= MinLength && !HasDigit(password)
    ensures ValidatePassword(password) == Rejected(NoDigitMessage)
  {
  }

  /** A long enough password with a digit but no ASCII letter is refused for the letter. */
  lemma LetterRuleLast(password: string)
    requires |password| >= MinLength && HasDigit(password) && !HasLetter(password)
    ensures ValidatePassword(password) == Rejected(NoLetterMessage)
  {
  }

  /** A character [^\s@] may stand in any of the three parts of an address. */
  predicate Plain(c: char) { !IsSpace(c) && c != '@' }

  predicate AllPlain(s: string) { forall i | 0 <= i < |s| :: Plain(s[i]) }

  /** validateEmail: the test of /^[^\s@]+@[^\s@]+\.[^\s@]+$/, written as the language of the
      pattern: a non-empty run of plain characters, '@', a non-empty run, '.', a non-empty run. */
  predicate ValidateEmail(email: string) {
    exists at, dot | 0 < at && at + 1 < dot && dot + 1 < |email| ::
      email[at] == '@' && email[dot] == '.'
      && AllPlain(email[..at]) && AllPlain(email[at + 1..dot]) && AllPlain(email[dot + 1..])
  }

  /** The domain part has a '.' with at least one character on each side. */
  predicate InnerDot(domain: string) { exists p | 0 < p < |domain| - 1 :: domain[p] == '.' }

  /** An address split at an '@' into a non-empty local part and a domain, neither holding an
      '@' or white space, the domain with an inner dot. */
  predicate SplitsAt(email: string, at: int) {
    0 < at < |email| && email[at] == '@'
    && AllPlain(email[..at]) && AllPlain(email[at + 1..]) && InnerDot(email[at + 1..])
  }

  lemma PatternGivesSplit(email: string, at: int, dot: int)
    requires 0 < at && at + 1 < dot && dot + 1 < |email|
    requires email[at] == '@' && email[dot] == '.'
    requires AllPlain(email[..at]) && AllPlain(email[at + 1..dot]) && AllPlain(email[dot + 1..])
    ensures SplitsAt(email, at)
  {
    var domain, mid, tail := email[at + 1..], email[at + 1..dot], email[dot + 1..];
    assert domain == mid + ['.'] + tail;
    forall i | 0 <= i < |domain| ensures Plain(domain[i]) {
      if i < |mid| {
        assert domain[i] == mid[i];
      } else if i > |mid| {
        assert domain[i] == tail[i - |mid| - 1];
      }
    }
    assert domain[|mid|] == '.';
  }

  lemma SplitGivesPattern(email: string, at: int) returns (dot: int)
    requires SplitsAt(email, at)
    ensures at + 1 < dot && dot + 1 < |email| && email[dot] == '.'
    ensures AllPlain(email[at + 1..dot]) && AllPlain(email[dot + 1..])
  {
    var domain := email[at + 1..];
    var p :| 0 < p < |domain| - 1 && domain[p] == '.';
    dot := at + 1 + p;
    var mid, tail := email[at + 1..dot], email[dot + 1..];
    assert mid == domain[..p];
    assert tail == domain[p + 1..];
  }

  /** validateEmail accepts exactly the addresses that split at some '@' as described. */
  lemma ValidateEmailSplit(email: string)
    ensures ValidateEmail(email) <==> exists at :: SplitsAt(email, at)
  {
    if ValidateEmail(email) {
      var at, dot :| 0 < at && at + 1 < dot && dot + 1 < |email| &&
        email[at] == '@' && email[dot] == '.' &&
        AllPlain(email[..at]) && AllPlain(email[at + 1..dot]) && AllPlain(email[dot + 1..]);
      PatternGivesSplit(email, at, dot);
    }
    if exists at :: SplitsAt(email, at) {
      var at :| SplitsAt(email, at);
      var dot := SplitGivesPattern(email, at);
    }
  }

  /** Number of occurrences of c in s. */
  function Occurrences(s: string, c: char): (n: nat)
    ensures n <= |s|
    ensures n == 0 <==> forall i | 0 <= i < |s| :: s[i] != c
  {
    if s == [] then 0
    else Occurrences(s[..|s| - 1], c) + (if s[|s| - 1] == c then 1 else 0)
  }

  lemma {:induction false} OccurrencesSplit(s: string, k: nat, c: char)
    requires k < |s| && s[k] == c
    ensures Occurrences(s, c) == Occurrences(s[..k], c) + 1 + Occurrences(s[k + 1..], c)
    decreases |s|
  {
    if k < |s| - 1 {
      var t := s[..|s| - 1];
      OccurrencesSplit(t, k, c);
      assert t[..k] == s[..k];
      assert t[k + 1..] == s[k + 1..|s| - 1];
      assert s[k + 1..][..|s| - k - 2] == s[k + 1..|s| - 1];
    } else {
      assert s[..|s| - 1] == s[..k];
      assert s[k + 1..] == [];
    }
  }

  /** An accepted address holds exactly one '@' and no white space at all. */
  lemma AcceptedEmailHasOneAt(email: string)
    requires ValidateEmail(email)
    ensures Occurrences(email, '@') == 1
    ensures forall i | 0 <= i < |email| :: !IsSpace(email[i])
  {
    ValidateEmailSplit(email);
    var at :| SplitsAt(email, at);
    OccurrencesSplit(email, at, '@');
    var local, domain := email[..at], email[at + 1..];
    assert forall i | 0 <= i < |local| :: local[i] != '@';
    assert forall i | 0 <= i < |domain| :: domain[i] != '@';
    forall i | 0 <= i < |email| ensures !IsSpace(email[i]) {
      if i < at { assert email[i] == local[i]; }
      else if i > at { assert email[i] == domain[i - at - 1]; }
    }
  }

  /** The 70 characters generateRandomPassword draws from. */
  const Alphabet: string := "ABCDEFGHIJKLMNOPQRSTUVWXYZabcdefghijklmnopqrstuvwxyz0123456789!@#$%^&*"

  /** Math.floor(r * chars.length) for a draw r of Math.random. */
  function PickIndex(r: real): (k: nat)
    requires 0.0 <= r < 1.0
    ensures k < |Alphabet|
  {
    (r * |Alphabet| as real).Floor
  }

  /** generateRandomPassword: one character per iteration, each chosen by one draw of
      Math.random, which the caller supplies as `draws` (values in [0, 1)). */
  method GenerateRandomPassword(draws: seq<real>, length: int := 12) returns (result: string)
    requires |draws| >= length
    requires forall i | 0 <= i < |draws| :: 0.0 <= draws[i] < 1.0
    ensures |result| == if length < 0 then 0 else length
    ensures forall i | 0 <= i < |result| :: result[i] in Alphabet
    ensures forall i | 0 <= i < |result| :: result[i] == Alphabet[PickIndex(draws[i])]
  {
    result := "";
    var i := 0;
    while i < length
      invariant 0 <= i && (length >= 0 ==> i <= length) && (length < 0 ==> i == 0)
      invariant |result| == i
      invariant forall j | 0 <= j < i :: result[j] == Alphabet[PickIndex(draws[j])]
    {
      result := result + [Alphabet[PickIndex(draws[i])]];
      i := i + 1;
    }
  }
}
