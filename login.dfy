/** The live feedback under the login form's two fields. Each field is
    classified by its length alone into one of three states, shown with the
    CSS classes "feedback success", "feedback error" and "feedback". */
module Login {

  datatype Feedback = Prompt | TooShort | Accepted

  const MinUsernameLength: nat := 7
  const MinPasswordLength: nat := 6

  /** `checkuser`: an empty field prompts for input, a name shorter than 7
      characters is an error, anything longer is valid. */
  function CheckUser(user: string): (f: Feedback)
    ensures f == Prompt <==> user == []
    ensures f == TooShort <==> 0 < |user| < MinUsernameLength
    ensures f == Accepted <==> |user| >= MinUsernameLength
  {
    if |user| > 6 then Accepted
    else if |user| > 0 then TooShort
    else Prompt
  }

  /** `checkpass`: an empty field prompts for input, a password shorter than
      6 characters is an error, anything longer is strong. */
  function CheckPass(pass: string): (f: Feedback)
    ensures f == Prompt <==> pass == []
    ensures f == TooShort <==> 0 < |pass| < MinPasswordLength
    ensures f == Accepted <==> |pass| >= MinPasswordLength
  {
    if |pass| > 5 then Accepted
    else if |pass| > 0 then TooShort
    else Prompt
  }
}
