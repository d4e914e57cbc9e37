/** The confirmation-code flow of views.py: `send_message` stores a code for an existing
    account and mails it; `get_jwt_token` exchanges the code for an access token. */
module Auth {
  import opened Common
  import opened Models
  import Text

  const CODE_LENGTH: nat := 6

  const LETTERS: string := "abcdefghijklmnopqrstuvwxyz"
  const DIGITS: string := "0123456789"

  /** The alphabet `send_message` draws its code from. */
  const CODE_CHARS: string := LETTERS + DIGITS

  predicate CodeChar(c: char) {
    ('a' <= c <= 'z') || ('0' <= c <= '9')
  }

  lemma LettersInOrder()
    ensures |LETTERS| == 26 && forall i :: 0 <= i < 26 ==> LETTERS[i] == ('a' as int + i) as char
  {
  }

  lemma DigitsInOrder()
    ensures |DIGITS| == 10 && forall i :: 0 <= i < 10 ==> DIGITS[i] == ('0' as int + i) as char
  {
  }

  lemma LettersAreSmallLetters()
    ensures forall c :: c in LETTERS <==> 'a' <= c <= 'z'
  {
    LettersInOrder();
    forall c | 'a' <= c <= 'z' ensures c in LETTERS {
      assert LETTERS[c as int - 'a' as int] == c;
    }
  }

  lemma DigitsAreDigits()
    ensures forall c :: c in DIGITS <==> '0' <= c <= '9'
  {
    DigitsInOrder();
    forall c | '0' <= c <= '9' ensures c in DIGITS {
      assert DIGITS[c as int - '0' as int] == c;
    }
  }

  /** The alphabet is exactly the small ASCII letters and the digits. */
  lemma CodeCharsetMembership()
    ensures forall c :: c in CODE_CHARS <==> CodeChar(c)
  {
    LettersAreSmallLetters();
    DigitsAreDigits();
    assert forall c :: c in CODE_CHARS <==> c in LETTERS || c in DIGITS;
  }

  /** `get_random_string(len(draws), chars)`: position i takes the character at the
      index the random source drew for it. */
  function RandomString(chars: string, draws: seq<nat>): (r: string)
    requires forall i :: 0 <= i < |draws| ==> draws[i] < |chars|
    ensures |r| == |draws|
    ensures forall i :: 0 <= i < |r| ==> r[i] in chars
  {
    seq(|draws|, i requires 0 <= i < |draws| => chars[draws[i]])
  }

  /** A well-formed oracle answer for one six-character code. */
  predicate CodeDraws(draws: seq<nat>) {
    |draws| == CODE_LENGTH && forall i :: 0 <= i < |draws| ==> draws[i] < |CODE_CHARS|
  }

  /** The code `send_message` generates from the random source's draws. */
  function ConfirmationCode(draws: seq<nat>): (code: string)
    requires CodeDraws(draws)
    ensures |code| == CODE_LENGTH <= CODE_MAX_LENGTH
    ensures forall i :: 0 <= i < |code| ==> CodeChar(code[i])
  {
    CodeCharsetMembership();
    RandomString(CODE_CHARS, draws)
  }

  /** Every six-character string over a-z0-9 is a code the generator can produce. */
  lemma EveryCodeReachable(code: string)
    requires |code| == CODE_LENGTH && forall i :: 0 <= i < |code| ==> CodeChar(code[i])
    ensures exists draws :: CodeDraws(draws) && ConfirmationCode(draws) == code
  {
    CodeCharsetMembership();
    var draws := seq(|code|, i requires 0 <= i < |code| =>
      var k :| 0 <= k < |CODE_CHARS| && CODE_CHARS[k] == code[i]; k);
    assert ConfirmationCode(draws) == code;
  }

  /** An e-mail handed to the mail transport. */
  datatype Mail = Mail(subject: string, message: string, recipients: seq<string>)

  const MAIL_SUBJECT: string := "YaMDb registration"

  function MailMessage(username: string, code: string): string {
    "Уважаемый " + username + ", Kод подтверждения = " + code
  }

  /** `send_message(email, username)` with `code` already drawn: look the account up,
      create its one-to-one confirmation row, mail the code to `email`. */
  function SendMessage(s: Store, email: string, username: string, code: string): (r: Result<(Store, Mail)>)
    requires UniqueUsernames(s.users)
    ensures !UsernameTaken(s.users, username) ==> r == Err(Missing)
    ensures forall u :: u in s.users && s.users[u].username == username ==>
      (u in s.auths ==> r == Err(Integrity)) &&
      (u !in s.auths ==> r.Ok? && r.value.0 == s.(auths := s.auths[u := UserAuth(code)]))
    ensures r.Ok? ==> r.value.1.recipients == [email] && r.value.1.subject == MAIL_SUBJECT
    ensures r.Ok? ==> r.value.1.message == MailMessage(username, code)
    ensures r.Ok? ==> var msg := r.value.1.message;
      |code| <= |msg| && msg[|msg| - |code|..] == code
  {
    match FindByUsername(s.users, username)
    case None => Err(Missing)
    case Some(u) =>
      if u in s.auths then Err(Integrity)
      else
        var msg := MailMessage(username, code);
        assert msg[|msg| - |code|..] == code;
        Ok((s.(auths := s.auths[u := UserAuth(code)]), Mail(MAIL_SUBJECT, msg, [email])))
  }

  lemma SendMessagePreservesValid(s: Store, email: string, username: string, code: string)
    requires ValidStore(s)
    ensures SendMessage(s, email, username, code).Ok? ==> ValidStore(SendMessage(s, email, username, code).value.0)
  {
    if SendMessage(s, email, username, code).Ok? {
      var u :| u in s.users && s.users[u].username == username;
      InsertAuthPreservesValid(s, u, UserAuth(code));
    }
  }


  /** The opaque token `AccessToken.for_user(user)` mints. */
  datatype AccessToken = AccessToken(user: UserId)

  /** `get_jwt_token(username, confirmation_code)`. Both fields are character fields, so
      surrounding whitespace is stripped and a value that is then empty is blank; an
      unknown user is 404; the code must then equal the stored one exactly. */
  function GetJwtToken(s: Store, username: string, code: string): (r: Result<AccessToken>)
    requires UniqueUsernames(s.users)
    ensures Text.Strip(username) == "" || Text.Strip(code) == "" ==> r.Err? && r.error.Invalid?
    ensures r.Err? && r.error.Invalid? ==>
      && (Username in r.error.fields <==> Text.Strip(username) == "")
      && (Field.ConfirmationCode in r.error.fields <==> Text.Strip(code) == "")
      && r.error.fields <= {Username, Field.ConfirmationCode}
    ensures Text.Strip(username) != "" && Text.Strip(code) != "" && !UsernameTaken(s.users, Text.Strip(username)) ==>
      r == Err(NotFound)
    ensures forall u :: u in s.users && s.users[u].username == Text.Strip(username) ==>
      Text.Strip(username) != "" && Text.Strip(code) != "" ==>
      && (u !in s.auths ==> r == Err(Missing))
      && (u in s.auths && Text.Strip(code) == s.auths[u].confirmationCode ==> r == Ok(AccessToken(u)))
      && (u in s.auths && Text.Strip(code) != s.auths[u].confirmationCode ==> r == Err(BadRequest))
  {
    var name, presented := Text.Strip(username), Text.Strip(code);
    if name == "" || presented == "" then
      Err(Invalid((if name == "" then {Username} else {}) + (if presented == "" then {Field.ConfirmationCode} else {})))
    else
      match FindByUsername(s.users, name)
      case None => Err(NotFound)
      case Some(u) =>
        if u !in s.auths then Err(Missing)
        else if presented == s.auths[u].confirmationCode then Ok(AccessToken(u))
        else Err(BadRequest)
  }

  /** After `send_message` stored `code` for an account, the exchange for that account
      (its username sent with or without surrounding whitespace) issues a token exactly
      when the presented code, stripped, equals it, and answers 400 otherwise. */
  lemma ExchangeAfterSend(s: Store, email: string, username: string, code: string, sent: string, presented: string)
    requires ValidStore(s) && username != "" && Text.Strip(sent) == username && Text.Strip(presented) != ""
    requires SendMessage(s, email, username, code).Ok?
    ensures var s' := SendMessage(s, email, username, code).value.0;
      var r := GetJwtToken(s', sent, presented);
      && (r.Ok? <==> Text.Strip(presented) == code)
      && (r.Ok? ==> s'.users[r.value.user].username == username)
      && (r.Err? ==> r.error == BadRequest && Status(r.error) == 400)
  {
    var s' := SendMessage(s, email, username, code).value.0;
    var u :| u in s.users && s.users[u].username == username;
    assert s'.users == s.users && s'.auths[u] == UserAuth(code);
    assert FindByUsername(s'.users, username) == Some(u);
  }

  /** The confirmation row is created, never overwritten: a second `send_message` for the
      same account fails, so the first code stays the one the exchange accepts. */
  lemma SecondSendFails(s: Store, email: string, username: string, code: string, email2: string, code2: string)
    requires ValidStore(s)
    requires SendMessage(s, email, username, code).Ok?
    ensures SendMessage(SendMessage(s, email, username, code).value.0, email2, username, code2) == Err(Integrity)
  {
    var u :| u in s.users && s.users[u].username == username;
  }
}
