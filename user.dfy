/**
 * The `User` entity of src/models/User.ts: its constructor's name check and
 * institutional-email check, the normalised email it stores, and `getInitials`.
 * The static id counter is passed in as `id` and advanced by
 * RegistrationLedger, the only place users are built.
 */
module UserModel {
  import opened Wrappers
  import opened Strings
  import opened Seqs
  import Validators

  datatype User = User(id: nat, name: string, email: string, registeredAt: int)

  /** The substrings one of which the lower-cased address must contain. */
  const InstitutionalMarkers: seq<string> :=
    [".edu", ".ac.", ".univ-", ".universite", ".school", ".college"]

  predicate HasInstitutionalMarker(email: string) {
    exists m :: m in InstitutionalMarkers && Contains(Lower(email), m)
  }

  /** `isValidInstitutionalEmail`: the email regular expression (the same one
      as Validators.isValidEmail) on the raw input, then one of the markers in
      the lower-cased input. */
  predicate IsInstitutionalEmail(email: string)
    ensures IsInstitutionalEmail(email) <==>
      Validators.IsValidEmail(email) && HasInstitutionalMarker(Lower(email))
  {
    LowerIdempotent(email);
    Validators.IsValidEmail(email) && HasInstitutionalMarker(email)
  }

  datatype UserError = NameTooShort | NotInstitutional

  /** What every constructed user satisfies: a trimmed name of at least two
      characters and a lower-case institutional address. */
  predicate Valid(u: User) {
    && Trimmed(u.name) && |u.name| >= 2
    && Lower(u.email) == u.email
    && IsInstitutionalEmail(u.email)
  }

  /** An address the regular expression accepts has no whitespace, so the
      `trim()` the constructor applies after lower-casing changes nothing. */
  lemma StoredEmailIsLower(email: string)
    requires Validators.IsValidEmail(email)
    ensures Trim(Lower(email)) == Lower(email)
  {
    Validators.ValidEmailIffShape(email);
    LowerKeepsSeparators(email);
    TrimNoWhitespace(Lower(email));
  }

  /** `new User(name, email)` at time `now`, with `id` the counter's value.
      The name is checked before the email, and on success the stored email
      is the lower-cased input. The constructor stores `trim` of the
      lower-cased input; by StoredEmailIsLower that is the lower-cased input
      itself for every address that gets this far. */
  function Construct(id: nat, name: string, email: string, now: int): (r: Result<User, UserError>)
    ensures r.Failure? <==> |Trim(name)| < 2 || !IsInstitutionalEmail(email)
    ensures r.Failure? ==> (r.error == NameTooShort <==> |Trim(name)| < 2)
    ensures r.Success? ==> r.value == User(id, Trim(name), Lower(email), now)
  {
    if |Trim(name)| < 2 then Failure(NameTooShort)
    else if !IsInstitutionalEmail(email) then Failure(NotInstitutional)
    else Success(User(id, Trim(name), Lower(email), now))
  }

  /** Lower-casing an institutional address keeps it institutional. */
  lemma LowerStaysInstitutional(email: string)
    requires IsInstitutionalEmail(email)
    ensures IsInstitutionalEmail(Lower(email))
  {
    Validators.ValidEmailLower(email);
    LowerIdempotent(email);
    var m :| m in InstitutionalMarkers && Contains(Lower(email), m);
    assert Contains(Lower(Lower(email)), m);
  }

  /** Every user the constructor returns satisfies Valid: in particular its
      stored (lower-cased) address is itself an institutional address. */
  lemma ConstructValid(id: nat, name: string, email: string, now: int)
    requires |Trim(name)| >= 2 && IsInstitutionalEmail(email)
    ensures Construct(id, name, email, now) == Success(User(id, Trim(name), Lower(email), now))
    ensures Valid(User(id, Trim(name), Lower(email), now))
  {
    TrimIdempotent(name);
    LowerIdempotent(email);
    LowerStaysInstitutional(email);
  }

  /** What `s[0]` contributes to a `+` in JavaScript: the first character,
      or the text "undefined" when `s` is empty. */
  function FirstOrUndefined(s: string): string {
    if s == [] then "undefined" else [s[0]]
  }

  /** `getInitials` as written: the first characters of the first two
      space-separated parts, or the first two characters when there is no
      space, upper-cased. The name is a stored one, so it has at least two
      characters and does not start with a space. */
  function InitialsAsWritten(name: string): (r: string)
    requires |name| >= 2 && name[0] != ' '
    ensures |Split(name, ' ')| < 2 || Split(name, ' ')[1] != [] ==>
      |r| == 2 && r[0] == UpperChar(name[0])
  {
    var names := Split(name, ' ');
    SplitHead(name, ' ');
    if |names| >= 2 then Upper(FirstOrUndefined(names[0]) + FirstOrUndefined(names[1]))
    else Upper(name[..2])
  }

  /** Splitting at the first separator. */
  lemma {:induction false} SplitAtFirst(a: string, b: string, sep: char)
    requires sep !in a
    ensures Split(a + [sep] + b, sep) == [a] + Split(b, sep)
    decreases |a|
  {
    if a == [] {
      assert ([sep] + b)[1..] == b;
    } else {
      var s := a + [sep] + b;
      assert s[0] == a[0] != sep && s[1..] == a[1..] + [sep] + b;
      SplitAtFirst(a[1..], b, sep);
      var rest := Split(s[1..], sep);
      assert rest == [a[1..]] + Split(b, sep);
      assert Split(s, sep) == [[a[0]] + rest[0]] + rest[1..];
      assert [a[0]] + a[1..] == a;
    }
  }

  /** A first word followed by two spaces leaves the second part empty, and
      `"J" + undefined` is the text "Jundefined": the result is not two
      characters long. */
  lemma {:induction false} InitialsAfterDoubleSpace(first: string, rest: string)
    requires first != [] && ' ' !in first
    ensures InitialsAsWritten(first + "  " + rest) == Upper([first[0]] + "undefined")
  {
    var name := first + "  " + rest;
    assert name == first + [' '] + ([] + [' '] + rest);
    SplitAtFirst(first, [] + [' '] + rest, ' ');
    SplitAtFirst([], rest, ' ');
    assert Split(name, ' ')[..2] == [first, []];
  }

  lemma InitialsDoubleSpace()
    ensures InitialsAsWritten("Jean  Dupont") == "JUNDEFINED"
  {
    assert "Jean  Dupont" == "Jean" + "  " + "Dupont";
    InitialsAfterDoubleSpace("Jean", "Dupont");
    assert ['J'] + "undefined" == "Jundefined";
    UpperJundefined();
  }

  lemma UpperJundefined()
    ensures Upper("Jundefined") == "JUNDEFINED"
  {
    var w := "Jundefined";
    forall i | 0 <= i < 10 ensures Upper(w)[i] == "JUNDEFINED"[i] {
      assert Upper(w)[i] == UpperChar(w[i]);
    }
  }

  /** The non-empty parts of a split. */
  function Words(parts: seq<string>): (r: seq<string>)
    ensures forall i :: 0 <= i < |r| ==> r[i] != []
    ensures parts != [] && parts[0] != [] ==> r != [] && r[0] == parts[0]
  {
    Filter(parts, (w: string) => w != [])
  }

  /** `getInitials` with the empty parts that repeated spaces produce left
      out: the first characters of the first two words, or the first two
      characters of a one-word name, upper-cased. Always two characters, the
      first of them the name's own first character. */
  function Initials(name: string): (r: string)
    requires |name| >= 2 && name[0] != ' '
    ensures |r| == 2
    ensures r[0] == UpperChar(name[0])
    ensures |Words(Split(name, ' '))| >= 2 ==> r[1] == UpperChar(Words(Split(name, ' '))[1][0])
    ensures |Words(Split(name, ' '))| < 2 ==> r[1] == UpperChar(name[1])
  {
    var words := Words(Split(name, ' '));
    SplitHead(name, ' ');
    if |words| >= 2 then Upper([words[0][0], words[1][0]])
    else Upper(name[..2])
  }

  /** Two words separated by two spaces: the corrected initials skip the
      empty part between the spaces and take the second word's letter. */
  lemma {:induction false} InitialsTwoWords(first: string, second: string)
    requires first != [] && ' ' !in first && second != [] && ' ' !in second
    ensures Initials(first + "  " + second) == Upper([first[0], second[0]])
  {
    var name := first + "  " + second;
    var parts := [first, [], second];
    assert name == first + [' '] + ([] + [' '] + second);
    SplitAtFirst(first, [] + [' '] + second, ' ');
    SplitAtFirst([], second, ' ');
    SplitWithoutSeparator(second, ' ');
    assert Split(name, ' ') == parts;
    var p := (w: string) => w != [];
    assert Filter(parts[1..], p) == Filter([second], p) by {
      assert parts[1..][1..] == [second];
    }
    assert Filter([second], p) == [second] + Filter([second][1..], p);
    assert Words(parts) == [first, second];
  }

  /** The corrected initials of "Jean  Dupont" are "JD". */
  lemma InitialsJeanDupont()
    ensures Initials("Jean  Dupont") == "JD"
  {
    assert "Jean  Dupont" == "Jean" + "  " + "Dupont";
    InitialsTwoWords("Jean", "Dupont");
    assert Upper("JD") == "JD" by {
      assert Upper("JD")[0] == UpperChar('J') && Upper("JD")[1] == UpperChar('D');
    }
  }

  /** A string that does not start with the separator begins its first part. */
  lemma SplitHead(s: string, sep: char)
    requires s != [] && s[0] != sep
    ensures Split(s, sep)[0] != [] && Split(s, sep)[0][0] == s[0]
  {
  }

  /** Where the second part is not empty, the two readings agree. */
  lemma InitialsAgree(name: string)
    requires |name| >= 2 && name[0] != ' '
    requires |Split(name, ' ')| < 2 || Split(name, ' ')[1] != []
    ensures Initials(name) == InitialsAsWritten(name)
  {
    var parts := Split(name, ' ');
    var p := (w: string) => w != [];
    SplitHead(name, ' ');
    var r := Initials(name);
    var a := InitialsAsWritten(name);
    if |parts| >= 2 {
      assert Filter(parts, p) == [parts[0]] + Filter(parts[1..], p);
      assert Filter(parts[1..], p) == [parts[1]] + Filter(parts[2..], p) by {
        assert parts[1..][0] == parts[1] && parts[1..][1..] == parts[2..];
      }
      assert Words(parts)[1] == parts[1];
      assert a == Upper([parts[0][0], parts[1][0]]);
    } else {
      assert |Filter(parts, p)| <= 1;
      assert a == Upper(name[..2]);
    }
    assert r[1] == a[1];
  }
}
