/** The administrator credential check of src/urlshortener/auth.py. */
module Auth {

  /** The literal the check compares against. */
  const ADMIN_PASSWORD: string := "admin123"

  /**
   * `check_password`: a plain equality test against a fixed literal.
   * The imported bcrypt hash is not consulted; the function takes
   * no other input than the submitted password.
   */
  function CheckPassword(password: string): (ok: bool)
    ensures ok <==> password == "admin123"
  {
    password == ADMIN_PASSWORD
  }

  /** Two accepted passwords are the same string. */
  lemma AcceptedPasswordIsUnique(p: string, q: string)
    requires CheckPassword(p) && CheckPassword(q)
    ensures p == q
  {
  }

  /** The empty string, which a missing form field becomes, is rejected. */
  lemma RejectsEmpty()
    ensures !CheckPassword("")
  {
  }
}
