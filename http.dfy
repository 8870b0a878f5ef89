/** What the controllers exchange with the web layer: bound forms, the pages they render, redirect targets,
    sessions and the `String.isBlank` test used on redirect URLs. */
module Http {
  import opened Wrappers
  import opened Tables

  datatype FormError = FieldError(field: string, key: string) | GlobalError(key: string)

  /** A form already bound from a request: its field values and the validation errors the binder found. */
  datatype Form<T> = Form(data: T, errors: seq<FormError>) {
    predicate HasErrors()
    {
      errors != []
    }

    function WithGlobalError(key: string): (f: Form<T>)
      ensures f.data == data && f.HasErrors() && f.errors[|f.errors| - 1] == GlobalError(key)
    {
      Form(data, errors + [GlobalError(key)])
    }
  }

  /** The sign-in form; the redirect URL is nullable in the application. */
  datatype SignInForm = SignInForm(email: string, password: string, redirectUrl: Option<string>)

  datatype AdminSignUpForm = AdminSignUpForm(name: string, email: string, password: string)

  /** The session attached to a response: opaque, tagged with the signed-in user's id. */
  datatype Session = Session(userId: Id)

  datatype Target =
    | IndexRoute                               // the application's index page
    | Url(url: string)                         // a redirect URL given by the client
    | SignInRoute(redirectUrl: Option<string>) // the public sign-in page, with its optional redirect
    | AuthSignInRoute                          // the sign-in page of the `Auth` controller

  datatype Page =
    | SignInPage(prefill: Option<string>)      // the sign-in form, empty or carrying only a redirect URL
    | SignInFormPage(form: Form<SignInForm>)   // the submitted sign-in form shown again
    | AdminSignUpFormPage(signUp: Form<AdminSignUpForm>)

  datatype Response =
    | Ok(page: Page)
    | BadRequest(page: Page)
    | Redirect(target: Target, session: Option<Session>)
    | Failed(error: StoreError)                // the request's future completed with a database exception

  /** `Character.isWhitespace`: the Unicode space, line and paragraph separators other than the non-breaking
      ones, and the control characters U+0009 to U+000D and U+001C to U+001F. */
  predicate IsWhitespace(c: char)
  {
    || c == '\U{0020}' || c == '\U{1680}' || ('\U{2000}' <= c <= '\U{200A}' && c != '\U{2007}')
    || c == '\U{205F}' || c == '\U{3000}' || c == '\U{2028}' || c == '\U{2029}'
    || ('\U{0009}' <= c <= '\U{000D}') || ('\U{001C}' <= c <= '\U{001F}')
  }

  /** What a sign-up answers, and the database after it. */
  datatype SignUpOutcome = SignUpOutcome(response: Response, state: DbState)

  /** `String.isBlank`: empty or only whitespace. */
  predicate IsBlank(s: string)
  {
    forall i :: 0 <= i < |s| ==> IsWhitespace(s[i])
  }

  /** `isBlank` on a few strings: the empty string and ASCII or Unicode spacing are blank; the non-breaking
      space U+00A0 is not whitespace for Java, so a string of it is not blank, nor is one with a letter. */
  lemma BlankCases()
    ensures IsBlank("") && IsBlank(" \t\r\n") && IsBlank("\U{2003}\U{3000}")
    ensures !IsBlank("\U{00A0}") && !IsBlank(" /inventory ")
  {
    assert !IsWhitespace("\U{00A0}"[0]);
    assert !IsWhitespace(" /inventory "[1]);
  }
}
