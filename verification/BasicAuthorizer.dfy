/** Basic credentials (section 2 of RFC 7617) taken out of an Authorization header field. */
module BasicAuthorizer {
  import opened Strings
  import opened Base64

  const COLON: Byte := 0x3A
  const BASIC: string := "Basic"

  datatype AuthorizationResult = Negotiate | BadRequest | AllowedContinue | Denied

  type Accept = (seq<Byte>, seq<Byte>) -> bool

  /** The verdict, the status code that was answered with, and the pair that accept_authentication
      was called with, if it was called. */
  datatype Attempt = Attempt(
    verdict: AuthorizationResult, status: Option<nat>, asked: Option<(seq<Byte>, seq<Byte>)>)

  function Authorize(field: Option<string>, accept: Accept): Attempt {
    if field.None? then Attempt(Negotiate, None, None)
    else
      var auth := field.value;
      var pos := Find(auth, ' ');
      if pos == |auth| || pos == |auth| - 1 then Attempt(BadRequest, Some(400), None)
      else if auth[..pos] != BASIC then Attempt(Negotiate, None, None)
      else
        match Decode(auth[pos + 1..])
        case Invalid(_) => Attempt(BadRequest, Some(400), None)
        case Bytes(out) =>
          var colon := Find(out, COLON);
          if colon == |out| then Attempt(BadRequest, Some(400), None)
          else
            var (user, password) := (out[..colon], out[colon + 1..]);
            if accept(user, password) then Attempt(AllowedContinue, None, Some((user, password)))
            else Attempt(Denied, Some(401), Some((user, password)))
  }

  method TryPerformAuthorization(field: Option<string>, accept: Accept) returns (attempt: Attempt)
    ensures attempt == Authorize(field, accept)
  {
    hide Decode, Find;
    if field.None? {
      return Attempt(Negotiate, None, None);
    }
    var auth := field.value;
    var pos := Find(auth, ' ');
    if pos == |auth| || pos == |auth| - 1 {
      return Attempt(BadRequest, Some(400), None);
    }
    var kind, value := auth[..pos], auth[pos + 1..];
    if kind != BASIC {
      return Attempt(Negotiate, None, None);
    }
    var decoded := Base64Decode(value);
    if decoded.Invalid? {
      return Attempt(BadRequest, Some(400), None);
    }
    var out := decoded.bytes;
    var colonPos := Find(out, COLON);
    if colonPos == |out| {
      return Attempt(BadRequest, Some(400), None);
    }
    var user, password := out[..colonPos], out[colonPos + 1..];
    var doAccept := accept(user, password);
    attempt := if doAccept then Attempt(AllowedContinue, None, Some((user, password)))
               else Attempt(Denied, Some(401), Some((user, password)));
  }

  // ----- what reaches the accepting function

  lemma SplitAtColon(out: seq<Byte>, user: seq<Byte>, password: seq<Byte>)
    requires COLON !in user && out == user + [COLON] + password
    ensures Find(out, COLON) == |user|
    ensures out[..|user|] == user && out[|user| + 1..] == password
  {
    assert out[..|user|] == user;
    FindIs(out, COLON, |user|);
  }

  lemma SplitAtSpace(value: string)
    ensures var auth := BASIC + " " + value;
            && Find(auth, ' ') == |BASIC| && auth[..|BASIC|] == BASIC && auth[|BASIC| + 1..] == value
  {
    var auth := BASIC + " " + value;
    assert auth[..|BASIC|] == BASIC;
    FindIs(auth, ' ', |BASIC|);
  }

  /** accept_authentication is called with exactly the pairs whose colon-join is what the value
      decodes to, with no colon in the user. */
  lemma AskedExactly(auth: string, accept: Accept, user: seq<Byte>, password: seq<Byte>)
    ensures Authorize(Some(auth), accept).asked == Some((user, password))
       <==> COLON !in user
            && exists value :: auth == BASIC + " " + value && Decode(value) == Bytes(user + [COLON] + password)
  {
    hide Decode, Find;
    if Authorize(Some(auth), accept).asked == Some((user, password)) {
      var pos := Find(auth, ' ');
      var value := auth[pos + 1..];
      assert auth == auth[..pos] + " " + value;
      var out := Decode(value).bytes;
      var colon := Find(out, COLON);
      assert out == out[..colon] + [COLON] + out[colon + 1..];
    }
    if value :| COLON !in user && auth == BASIC + " " + value && Decode(value) == Bytes(user + [COLON] + password) {
      SplitAtSpace(value);
      SplitAtColon(user + [COLON] + password, user, password);
      EmptyDecodesToNothing();
      assert value != "";
    }
  }

  lemma EmptyDecodesToNothing()
    ensures Decode("") == Bytes([])
  {}

  /** The header field carries these credentials. */
  ghost predicate Carries(auth: string, user: seq<Byte>, password: seq<Byte>) {
    0x3A !in user && exists value :: auth == "Basic " + value && Decode(value) == Bytes(user + [0x3A] + password)
  }

  /** Something stands behind the first space, and the word before it is not "Basic". */
  ghost predicate AsksOtherwise(auth: string) {
    exists word, rest :: auth == word + " " + rest && ' ' !in word && rest != "" && word != "Basic"
  }

  lemma AskedIsCarried(auth: string, accept: Accept, user: seq<Byte>, password: seq<Byte>)
    ensures Authorize(Some(auth), accept).asked == Some((user, password)) <==> Carries(auth, user, password)
  {
    hide Decode, Find;
    AskedExactly(auth, accept, user, password);
    assert BASIC + " " == "Basic ";
  }

  lemma NegotiatesExactly(auth: string, accept: Accept)
    ensures Authorize(Some(auth), accept).verdict == Negotiate <==> AsksOtherwise(auth)
  {
    hide Decode, Find;
    var pos := Find(auth, ' ');
    if Authorize(Some(auth), accept).verdict == Negotiate {
      assert auth == auth[..pos] + " " + auth[pos + 1..];
    }
    if word, rest :| auth == word + " " + rest && ' ' !in word && rest != "" && word != "Basic" {
      assert auth[..|word|] == word;
      FindIs(auth, ' ', |word|);
    }
  }

  /** The verdict on every header field, and what is answered with: access is given exactly for
      credentials that are accepted, 401 exactly for credentials that are not, the client is asked for
      the right method exactly when it used another one or none, and everything else is a bad
      request, answered with 400. */
  lemma VerdictExactly(field: Option<string>, accept: Accept)
    ensures var a := Authorize(field, accept);
            && (a.verdict == AllowedContinue <==>
                  field.Some? && exists user, password :: Carries(field.value, user, password) && accept(user, password))
            && (a.verdict == Denied <==>
                  field.Some? && exists user, password :: Carries(field.value, user, password) && !accept(user, password))
            && (a.verdict == Negotiate <==> field.None? || AsksOtherwise(field.value))
            && a.status == (match a.verdict
                            case AllowedContinue => None
                            case Denied => Some(401)
                            case Negotiate => None
                            case BadRequest => Some(400))
  {
    hide Decode, Find, Carries, AsksOtherwise;
    if field.Some? {
      var a := Authorize(field, accept);
      NegotiatesExactly(field.value, accept);
      forall user, password
        ensures a.asked == Some((user, password)) <==> Carries(field.value, user, password)
      {
        AskedIsCarried(field.value, accept, user, password);
      }
      if a.asked.Some? {
        assert Carries(field.value, a.asked.value.0, a.asked.value.1);
      }
    }
  }

  /** Credentials that a client encodes reach the accepting function unchanged, and its answer decides. */
  lemma CredentialsArrive(user: seq<Byte>, password: seq<Byte>, accept: Accept)
    requires COLON !in user
    ensures Authorize(Some(BASIC + " " + Encode(user + [COLON] + password)), accept)
         == if accept(user, password) then Attempt(AllowedContinue, None, Some((user, password)))
            else Attempt(Denied, Some(401), Some((user, password)))
  {
    hide Decode, Encode, Find;
    var out := user + [COLON] + password;
    var value := Encode(out);
    RoundTrip(out);
    SplitAtSpace(value);
    SplitAtColon(out, user, password);
    assert |value| > 0;
  }
}
