/**
 * `Validators.isValidEmail` (src/utils/validators.ts): the regular expression
 * `^[^\s@]+@[^\s@]+\.[^\s@]+$`, which User's constructor applies as well.
 */
module Validators {
  import opened Strings

  /** The characters of `s` in `[lo, hi)` all match `[^\s@]`. */
  predicate PlainBetween(s: string, lo: int, hi: int)
    requires 0 <= lo <= hi <= |s|
  {
    forall i :: lo <= i < hi ==> !IsWhitespace(s[i]) && s[i] != '@'
  }

  /** The regular expression, read structurally: the string is `local@host.tail`
      with `local`, `host` and `tail` non-empty runs of `[^\s@]`. The `.` may be
      any dot between the host's first character and the last character. */
  predicate IsValidEmail(email: string)
    ensures IsValidEmail(email) ==> |email| >= 5 && email[0] != '@' && email[|email| - 1] != '@'
  {
    exists at, dot | 0 < at < |email| && 0 < dot < |email| ::
      && at + 1 < dot < |email| - 1
      && email[at] == '@' && email[dot] == '.'
      && PlainBetween(email, 0, at)
      && PlainBetween(email, at + 1, dot)
      && PlainBetween(email, dot + 1, |email|)
  }

  /** What an accepted address looks like, stated without the regular expression:
      no whitespace, exactly one `@`, something before it, and after it a `.` that
      is neither the first nor the last character of the domain. */
  ghost predicate AddressShape(email: string) {
    && NoWhitespace(email)
    && exists at :: 0 < at < |email| && email[at] == '@'
         && (forall j :: 0 <= j < |email| && email[j] == '@' ==> j == at)
         && exists dot :: at + 1 < dot < |email| - 1 && email[dot] == '.'
  }

  /** The regular expression accepts exactly the strings of AddressShape. */
  lemma ValidEmailIffShape(email: string)
    ensures IsValidEmail(email) <==> AddressShape(email)
  {
    if IsValidEmail(email) {
      ValidEmailHasShape(email);
    }
    if AddressShape(email) {
      var at :| 0 < at < |email| && email[at] == '@'
        && (forall j :: 0 <= j < |email| && email[j] == '@' ==> j == at)
        && exists dot :: at + 1 < dot < |email| - 1 && email[dot] == '.';
      var dot :| at + 1 < dot < |email| - 1 && email[dot] == '.';
      assert PlainBetween(email, 0, at);
      assert PlainBetween(email, at + 1, dot);
      assert PlainBetween(email, dot + 1, |email|);
    }
  }

  lemma ValidEmailHasShape(email: string)
    requires IsValidEmail(email)
    ensures AddressShape(email)
  {
    var at, dot :| 0 < at < |email| && 0 < dot < |email| && at + 1 < dot < |email| - 1
      && email[at] == '@' && email[dot] == '.'
      && PlainBetween(email, 0, at) && PlainBetween(email, at + 1, dot)
      && PlainBetween(email, dot + 1, |email|);
    assert forall j :: 0 <= j < |email| && email[j] == '@' ==> j == at;
  }

  /** Lower-casing an address changes neither acceptance nor rejection. */
  lemma ValidEmailLower(email: string)
    ensures IsValidEmail(Lower(email)) <==> IsValidEmail(email)
  {
    var low := Lower(email);
    LowerKeepsSeparators(email);
    forall lo, hi | 0 <= lo <= hi <= |email|
      ensures PlainBetween(low, lo, hi) <==> PlainBetween(email, lo, hi)
    {
    }
  }
}
