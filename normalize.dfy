/** The header normaliser (`normalizeHeader`). */
module Normalize {
  import opened Wrappers
  import opened Text

  /** The given-name alternation, in its regex order. */
  const FirstNameAliases: seq<string> := ["firstname", "first_name", "givenname", "fname"]

  /** The surname alternation, in its regex order. */
  const LastNameAliases: seq<string> := ["lastname", "last_name", "surname", "lname", "familyname"]

  /** Lower-case the header and keep only [a-z0-9]; a header already of that form is kept as it is. */
  function StripHeader(h: string): string {
    KeepLowerAlnum(ToLower(h))
  }

  /** The stripped header holds only [a-z0-9], and a header already of that form is kept as it is. */
  lemma StripHeaderSpec(h: string)
    ensures AllLowerAlnum(StripHeader(h)) && |StripHeader(h)| <= |h|
    ensures AllLowerAlnum(h) ==> StripHeader(h) == h
  {
    ToLowerKeepsLowerAlnum(h);
    KeepLowerAlnumSpec(ToLower(h));
  }

  /** The given-name rewrite: the leftmost given-name alias becomes "firstname". */
  function RewriteFirstName(s: string): string {
    ReplaceFirst(s, FirstNameAliases, "firstname")
  }

  /** The surname rewrite: the leftmost surname alias becomes "lastname". */
  function RewriteLastName(s: string): string {
    ReplaceFirst(s, LastNameAliases, "lastname")
  }

  /**
   * normalizeHeader: strip to lower-case [a-z0-9], then rewrite the first
   * given-name alias and then the first surname alias. The last step of the
   * source, replacing an anchored `^name$` by "name", maps every string to
   * itself and so does not appear.
   */
  function NormalizeHeader(h: string): (r: string)
    ensures AllLowerAlnum(r)
  {
    StripHeaderSpec(h);
    ReplaceFirstLowerAlnum(StripHeader(h), FirstNameAliases, "firstname");
    ReplaceFirstLowerAlnum(RewriteFirstName(StripHeader(h)), LastNameAliases, "lastname");
    RewriteLastName(RewriteFirstName(StripHeader(h)))
  }

  /** No given-name alias can hold "firstname" starting after its own first character. */
  lemma FirstNameAliasesBlocked()
    ensures forall j :: 0 <= j < |FirstNameAliases| ==> Blocked(FirstNameAliases[j], "firstname", 1)
  {
    assert BlockedFrom("firstname", "firstname", 1);
    BlockedFromSpec("firstname", "firstname", 1);
    assert BlockedFrom("first_name", "firstname", 1);
    BlockedFromSpec("first_name", "firstname", 1);
    assert BlockedFrom("givenname", "firstname", 1);
    BlockedFromSpec("givenname", "firstname", 1);
    assert BlockedFrom("fname", "firstname", 1);
    BlockedFromSpec("fname", "firstname", 1);
  }

  /** "lastname" and a given-name alias can never overlap. */
  lemma LastNameBlocksFirstNameAliases()
    ensures forall j :: 0 <= j < |FirstNameAliases| ==>
      Blocked(FirstNameAliases[j], "lastname", 0) && Blocked("lastname", FirstNameAliases[j], 1)
  {
    assert BlockedFrom("firstname", "lastname", 0);
    BlockedFromSpec("firstname", "lastname", 0);
    assert BlockedFrom("lastname", "firstname", 1);
    BlockedFromSpec("lastname", "firstname", 1);
    assert BlockedFrom("first_name", "lastname", 0);
    BlockedFromSpec("first_name", "lastname", 0);
    assert BlockedFrom("lastname", "first_name", 1);
    BlockedFromSpec("lastname", "first_name", 1);
    assert BlockedFrom("givenname", "lastname", 0);
    BlockedFromSpec("givenname", "lastname", 0);
    assert BlockedFrom("lastname", "givenname", 1);
    BlockedFromSpec("lastname", "givenname", 1);
    assert BlockedFrom("fname", "lastname", 0);
    BlockedFromSpec("fname", "lastname", 0);
    assert BlockedFrom("lastname", "fname", 1);
    BlockedFromSpec("lastname", "fname", 1);
  }

  /** No surname alias can hold "lastname" starting after its own first character. */
  lemma LastNameAliasesBlocked()
    ensures forall j :: 0 <= j < |LastNameAliases| ==> Blocked(LastNameAliases[j], "lastname", 1)
  {
    assert BlockedFrom("lastname", "lastname", 1);
    BlockedFromSpec("lastname", "lastname", 1);
    assert BlockedFrom("last_name", "lastname", 1);
    BlockedFromSpec("last_name", "lastname", 1);
    assert BlockedFrom("surname", "lastname", 1);
    BlockedFromSpec("surname", "lastname", 1);
    assert BlockedFrom("lname", "lastname", 1);
    BlockedFromSpec("lname", "lastname", 1);
    assert BlockedFrom("familyname", "lastname", 1);
    BlockedFromSpec("familyname", "lastname", 1);
  }

  /** "firstname" and a surname alias can never overlap. */
  lemma FirstNameBlocksLastNameAliases()
    ensures forall j :: 0 <= j < |LastNameAliases| ==>
      Blocked("firstname", LastNameAliases[j], 0) && Blocked(LastNameAliases[j], "firstname", 1)
  {
    assert BlockedFrom("firstname", "lastname", 0);
    BlockedFromSpec("firstname", "lastname", 0);
    assert BlockedFrom("lastname", "firstname", 1);
    BlockedFromSpec("lastname", "firstname", 1);
    assert BlockedFrom("firstname", "last_name", 0);
    BlockedFromSpec("firstname", "last_name", 0);
    assert BlockedFrom("last_name", "firstname", 1);
    BlockedFromSpec("last_name", "firstname", 1);
    assert BlockedFrom("firstname", "surname", 0);
    BlockedFromSpec("firstname", "surname", 0);
    assert BlockedFrom("surname", "firstname", 1);
    BlockedFromSpec("surname", "firstname", 1);
    assert BlockedFrom("firstname", "lname", 0);
    BlockedFromSpec("firstname", "lname", 0);
    assert BlockedFrom("lname", "firstname", 1);
    BlockedFromSpec("lname", "firstname", 1);
    assert BlockedFrom("firstname", "familyname", 0);
    BlockedFromSpec("firstname", "familyname", 0);
    assert BlockedFrom("familyname", "firstname", 1);
    BlockedFromSpec("familyname", "firstname", 1);
  }

  /**
   * Normalising twice is normalising once: the second strip keeps the
   * [a-z0-9] form, and each rewrite finds its canonical name as the leftmost
   * match, which the other rewrite cannot have disturbed.
   */
  lemma NormalizeIdempotent(h: string)
    ensures NormalizeHeader(NormalizeHeader(h)) == NormalizeHeader(h)
  {
    var y := StripHeader(h);
    var z := RewriteFirstName(y);
    var w := RewriteLastName(z);
    StripHeaderSpec(w);
    FirstNameAliasesBlocked();
    LastNameBlocksFirstNameAliases();
    LastNameAliasesBlocked();
    FirstNameBlocksLastNameAliases();
    ReplaceSettles(y, FirstNameAliases, "firstname");
    ReplaceKeepsSettled(z, FirstNameAliases, LastNameAliases, "lastname");
    SettledFixed(w, FirstNameAliases);
    ReplaceSettles(z, LastNameAliases, "lastname");
    SettledFixed(w, LastNameAliases);
  }

  /** An empty header (the source's `h || ''` for a missing one) normalises to the empty string. */
  lemma NormalizeEmpty()
    ensures NormalizeHeader("") == ""
  {
  }

  /** The underscore aliases can never match: stripping has already removed every underscore. */
  lemma UnderscoreAliasesInert(s: string, p: nat)
    requires AllLowerAlnum(s)
    ensures !OccursAt(s, "first_name", p) && !OccursAt(s, "last_name", p)
  {
    OccursAtIff(s, "first_name", p);
    OccursAtIff(s, "last_name", p);
    if p + 10 <= |s| {
      assert s[p..p + 10][5] == s[p + 5];
    }
    if p + 9 <= |s| {
      assert s[p..p + 9][4] == s[p + 4];
    }
  }

  /** "firstname" holds no surname alias, so the surname rewrite keeps it. */
  lemma FirstNameKeptBySurnameRewrite()
    ensures RewriteLastName("firstname") == "firstname"
  {
    assert !Contains("firstname", "lastname") && !Contains("firstname", "last_name");
    assert !Contains("firstname", "surname") && !Contains("firstname", "lname");
    assert !Contains("firstname", "familyname");
    ReplaceFirstNotContained("firstname", LastNameAliases, "lastname");
  }

  /** The given-name rewrite of each alias the stripping can leave. */
  lemma FirstNameAliasRewrites()
    ensures RewriteFirstName("firstname") == "firstname"
    ensures RewriteFirstName("givenname") == "firstname"
    ensures RewriteFirstName("fname") == "firstname"
  {
    assert AltAt("firstname", FirstNameAliases, 0, 0) == Some(0);
    assert AltAt("givenname", FirstNameAliases, 0, 0) == Some(2);
    assert AltAt("fname", FirstNameAliases, 0, 0) == Some(3);
  }

  /** The surname rewrite of each alias the stripping can leave. */
  lemma LastNameAliasRewrites()
    ensures RewriteLastName("lastname") == "lastname"
    ensures RewriteLastName("surname") == "lastname"
    ensures RewriteLastName("lname") == "lastname"
    ensures RewriteLastName("familyname") == "lastname"
  {
    assert AltAt("lastname", LastNameAliases, 0, 0) == Some(0);
    assert AltAt("surname", LastNameAliases, 0, 0) == Some(2);
    assert AltAt("lname", LastNameAliases, 0, 0) == Some(3);
    assert AltAt("familyname", LastNameAliases, 0, 3) == Some(4);
    assert AltAt("familyname", LastNameAliases, 0, 1) == Some(4);
    assert AltAt("familyname", LastNameAliases, 0, 0) == Some(4);
  }

  /** A stripped header that is a given-name alias as a whole normalises to "firstname". */
  lemma RewriteWholeFirstName(s: string)
    requires s in FirstNameAliases && AllLowerAlnum(s)
    ensures RewriteLastName(RewriteFirstName(s)) == "firstname"
  {
    assert |s| > 5 ==> IsLowerAlnum(s[5]);
    assert s == "firstname" || s == "givenname" || s == "fname";
    FirstNameAliasRewrites();
    FirstNameKeptBySurnameRewrite();
  }

  /** A surname alias holds no given-name alias, so the given-name rewrite keeps it. */
  lemma SurnameAliasKeptByFirstNameRewrite(s: string)
    requires s in LastNameAliases && AllLowerAlnum(s)
    ensures RewriteFirstName(s) == s
  {
    assert |s| > 4 ==> IsLowerAlnum(s[4]);
    if s == "lastname" {
      assert !Contains(s, "firstname") && !Contains(s, "first_name");
      assert !Contains(s, "givenname") && !Contains(s, "fname");
    } else if s == "surname" {
      assert !Contains(s, "firstname") && !Contains(s, "first_name");
      assert !Contains(s, "givenname") && !Contains(s, "fname");
    } else if s == "lname" {
      assert !Contains(s, "firstname") && !Contains(s, "first_name");
      assert !Contains(s, "givenname") && !Contains(s, "fname");
    } else {
      assert s == "familyname";
      assert !Contains(s, "firstname") && !Contains(s, "first_name");
      assert !Contains(s, "givenname") && !Contains(s, "fname");
    }
    ReplaceFirstNotContained(s, FirstNameAliases, "firstname");
  }

  /** A stripped header that is a surname alias as a whole normalises to "lastname". */
  lemma RewriteWholeLastName(s: string)
    requires s in LastNameAliases && AllLowerAlnum(s)
    ensures RewriteLastName(RewriteFirstName(s)) == "lastname"
  {
    SurnameAliasKeptByFirstNameRewrite(s);
    assert |s| > 4 ==> IsLowerAlnum(s[4]);
    assert s == "lastname" || s == "surname" || s == "lname" || s == "familyname";
    LastNameAliasRewrites();
  }

  /** A header that strips to one of the aliases as a whole normalises to the canonical name. */
  lemma NormalizeWholeAlias(h: string)
    ensures StripHeader(h) in FirstNameAliases ==> NormalizeHeader(h) == "firstname"
    ensures StripHeader(h) in LastNameAliases ==> NormalizeHeader(h) == "lastname"
  {
    StripHeaderSpec(h);
    if StripHeader(h) in FirstNameAliases {
      RewriteWholeFirstName(StripHeader(h));
    }
    if StripHeader(h) in LastNameAliases {
      RewriteWholeLastName(StripHeader(h));
    }
  }

  /** A header whose stripped form contains no alias normalises to that stripped form. */
  lemma NormalizeWithoutAlias(h: string)
    requires forall j :: 0 <= j < |FirstNameAliases| ==> !Contains(StripHeader(h), FirstNameAliases[j])
    requires forall j :: 0 <= j < |LastNameAliases| ==> !Contains(StripHeader(h), LastNameAliases[j])
    ensures NormalizeHeader(h) == StripHeader(h)
  {
    ReplaceFirstNotContained(StripHeader(h), FirstNameAliases, "firstname");
    ReplaceFirstNotContained(StripHeader(h), LastNameAliases, "lastname");
  }

  /** "Given Name" is a given-name alias. */
  lemma NormalizeGivenName()
    ensures NormalizeHeader("Given Name") == "firstname"
  {
    assert ToLower("Given Name") == "given name";
    assert StripHeader("Given Name") == "givenname";
    NormalizeWholeAlias("Given Name");
  }

  /** "Surname" is a surname alias. */
  lemma NormalizeSurname()
    ensures NormalizeHeader("Surname") == "lastname"
  {
    assert ToLower("Surname") == "surname";
    assert StripHeader("Surname") == "surname";
    NormalizeWholeAlias("Surname");
  }

  /** "FirstName" strips to the given-name alias "firstname". */
  lemma NormalizeFirstName()
    ensures NormalizeHeader("FirstName") == "firstname"
  {
    assert ToLower("FirstName") == "firstname";
    assert StripHeader("FirstName") == "firstname";
    NormalizeWholeAlias("FirstName");
  }

  /** "LastName" strips to the surname alias "lastname". */
  lemma NormalizeLastName()
    ensures NormalizeHeader("LastName") == "lastname"
  {
    assert ToLower("LastName") == "lastname";
    assert StripHeader("LastName") == "lastname";
    NormalizeWholeAlias("LastName");
  }

  /** "Name" holds no alias and normalises to "name". */
  lemma NormalizeName()
    ensures NormalizeHeader("Name") == "name"
  {
    assert ToLower("Name") == "name";
    assert StripHeader("Name") == "name";
    assert !Contains("name", "firstname") && !Contains("name", "first_name");
    assert !Contains("name", "givenname") && !Contains("name", "fname");
    assert !Contains("name", "lastname") && !Contains("name", "last_name");
    assert !Contains("name", "surname") && !Contains("name", "lname");
    assert !Contains("name", "familyname");
    NormalizeWithoutAlias("Name");
  }

  /** "Email" holds no alias and normalises to "email". */
  lemma NormalizeEmail()
    ensures NormalizeHeader("Email") == "email"
  {
    assert ToLower("Email") == "email";
    assert StripHeader("Email") == "email";
    assert !Contains("email", "firstname") && !Contains("email", "first_name");
    assert !Contains("email", "givenname") && !Contains("email", "fname");
    assert !Contains("email", "lastname") && !Contains("email", "last_name");
    assert !Contains("email", "surname") && !Contains("email", "lname");
    assert !Contains("email", "familyname");
    NormalizeWithoutAlias("Email");
  }

  /** "emailaddress" holds no given-name alias. */
  lemma EmailAddressHoldsNoGivenNameAlias()
    ensures forall j :: 0 <= j < |FirstNameAliases| ==> !Contains("emailaddress", FirstNameAliases[j])
  {
    assert !Contains("emailaddress", "firstname") && !Contains("emailaddress", "first_name");
    assert !Contains("emailaddress", "givenname") && !Contains("emailaddress", "fname");
  }

  /** "emailaddress" holds no surname alias. */
  lemma EmailAddressHoldsNoSurnameAlias()
    ensures forall j :: 0 <= j < |LastNameAliases| ==> !Contains("emailaddress", LastNameAliases[j])
  {
    assert !Contains("emailaddress", "lastname") && !Contains("emailaddress", "last_name");
    assert !Contains("emailaddress", "surname") && !Contains("emailaddress", "lname");
    assert !Contains("emailaddress", "familyname");
  }

  lemma StripEmailAddress()
    ensures StripHeader("email_address") == "emailaddress"
  {
    LowerEmailHeader();
    var s := "email_address";
    assert KeepLowerAlnumFrom(s, 13) == "";
    assert KeepLowerAlnumFrom(s, 10) == "ess";
    assert KeepLowerAlnumFrom(s, 6) == "address";
    assert KeepLowerAlnumFrom(s, 5) == "address";
    assert KeepLowerAlnumFrom(s, 2) == "ailaddress";
    assert KeepLowerAlnumFrom(s, 0) == "emailaddress";
  }

  lemma LowerEmailHeader()
    ensures ToLower("email_address") == "email_address"
  {
  }

  /** "email_address" loses its underscore and normalises to "emailaddress". */
  lemma NormalizeEmailAddress()
    ensures NormalizeHeader("email_address") == "emailaddress"
  {
    StripEmailAddress();
    EmailAddressHoldsNoGivenNameAlias();
    EmailAddressHoldsNoSurnameAlias();
    NormalizeWithoutAlias("email_address");
  }
}
