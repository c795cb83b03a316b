/** The credential checks the scraper runs when it is constructed: the
    `.env` file must exist, both variables must be non-blank after trimming,
    and neither may still hold the template's placeholder text. */
module Config {
  import opened Text

  datatype ConfigError =
    | EnvFileMissing          // no `.env` next to the script
    | CredentialsMissing      // an address or a password blank after trimming
    | PlaceholderCredentials  // the template's placeholder text left in place

  datatype Credentials = Credentials(email: string, password: string)

  datatype Loaded = Accepted(creds: Credentials) | Rejected(error: ConfigError)

  /** `os.getenv(name, '')`: an unset variable reads as the empty string. */
  function Getenv(v: Option<string>): (r: string)
    ensures r == "" <==> v.None? || v.value == ""
    ensures r != "" ==> v == Some(r)
  {
    if v.Some? then v.value else ""
  }

  /** The placeholder test, on ASCII-lowercased text: the address mentions
      "your_email", or the password mentions "your_password" or "here". */
  predicate IsPlaceholder(email: string, password: string)
    ensures Contains(email, "your_email") ==> IsPlaceholder(email, password)
    ensures Contains(password, "your_password") ==> IsPlaceholder(email, password)
    ensures Contains(password, "here") ==> IsPlaceholder(email, password)
  {
    TemplateTextSurvivesLower(email, password);
    || Contains(Lower(email), "your_email")
    || Contains(Lower(password), "your_password")
    || Contains(Lower(password), "here")
  }

  lemma TemplateTextSurvivesLower(email: string, password: string)
    ensures Contains(email, "your_email") ==> Contains(Lower(email), "your_email")
    ensures Contains(password, "your_password") ==> Contains(Lower(password), "your_password")
    ensures Contains(password, "here") ==> Contains(Lower(password), "here")
  {
    if Contains(email, "your_email") {
      ContainsLower(email, "your_email");
    }
    if Contains(password, "your_password") {
      ContainsLower(password, "your_password");
    }
    if Contains(password, "here") {
      ContainsLower(password, "here");
    }
  }

  /** The constructor's checks, in their order: the file, then blank values,
      then placeholders. */
  function LoadCredentials(envFileExists: bool, emailVar: Option<string>, passwordVar: Option<string>)
    : (r: Loaded)
    ensures r == Rejected(EnvFileMissing) <==> !envFileExists
    ensures r == Rejected(CredentialsMissing) <==>
      envFileExists && (Strip(Getenv(emailVar)) == "" || Strip(Getenv(passwordVar)) == "")
    ensures r.Accepted? ==>
      && r.creds == Credentials(Strip(Getenv(emailVar)), Strip(Getenv(passwordVar)))
      && r.creds.email != "" && r.creds.password != ""
      && IsStripped(r.creds.email) && IsStripped(r.creds.password)
      && !IsPlaceholder(r.creds.email, r.creds.password)
  {
    if !envFileExists then Rejected(EnvFileMissing)
    else
      var email := Strip(Getenv(emailVar));
      var password := Strip(Getenv(passwordVar));
      if email == "" || password == "" then Rejected(CredentialsMissing)
      else if IsPlaceholder(email, password) then Rejected(PlaceholderCredentials)
      else Accepted(Credentials(email, password))
  }

  /** Credentials are accepted exactly when the file exists and both trimmed
      values are non-blank and free of placeholder text. */
  lemma AcceptedExactly(envFileExists: bool, emailVar: Option<string>, passwordVar: Option<string>)
    ensures var email := Strip(Getenv(emailVar));
      var password := Strip(Getenv(passwordVar));
      LoadCredentials(envFileExists, emailVar, passwordVar).Accepted? <==>
        envFileExists && email != "" && password != "" && !IsPlaceholder(email, password)
    ensures var email := Strip(Getenv(emailVar));
      var password := Strip(Getenv(passwordVar));
      LoadCredentials(envFileExists, emailVar, passwordVar) == Rejected(PlaceholderCredentials) <==>
        envFileExists && email != "" && password != "" && IsPlaceholder(email, password)
  {
    var r := LoadCredentials(envFileExists, emailVar, passwordVar);
    assert r.Accepted? || r.error == EnvFileMissing || r.error == CredentialsMissing
      || r.error == PlaceholderCredentials;
  }

  /** The placeholder test ignores ASCII case: lowercasing the values first
      changes nothing. */
  lemma PlaceholderIgnoresCase(email: string, password: string)
    ensures IsPlaceholder(Lower(email), Lower(password)) == IsPlaceholder(email, password)
  {
    LowerIdempotent(email);
    LowerIdempotent(password);
  }

  /** Any password with "here" in it, in any ASCII case ("There", "wHERE"),
      is taken for a placeholder, whatever the address. */
  lemma HereAnywhereRejects(envFileExists: bool, emailVar: Option<string>, password: string)
    requires envFileExists
    requires Strip(Getenv(emailVar)) != "" && Strip(password) != ""
    requires Contains(Lower(Strip(password)), "here")
    ensures LoadCredentials(envFileExists, emailVar, Some(password)) == Rejected(PlaceholderCredentials)
  {
  }
}
