/**
 * The authentication decorators: `token_required` reads the bearer token
 * from the `Authorization` header and decodes it; `teacher_required` and
 * `student_required` run the token check first and then compare the role
 * claim.
 *
 * The JWT library (signature, expiry and algorithm checks) is an oracle: a
 * function from the token text to what `jwt.decode` returns or raises.
 */
module AuthMiddleware {
  import opened Roster

  // ---------------------------------------------------------------------
  // str.split(" ")
  // ---------------------------------------------------------------------

  /**
   * Python's `s.split(" ")` with an explicit separator: every single space
   * separates, so adjacent, leading and trailing spaces give empty words,
   * and there is always at least one word.
   */
  function Split(s: string): (words: seq<string>)
    ensures |words| >= 1
    decreases |s|
  {
    if s == [] then [""]
    else
      var rest := Split(s[1..]);
      if s[0] == ' ' then [""] + rest
      else [[s[0]] + rest[0]] + rest[1..]
  }

  /** `" ".join(words)` */
  function Join(words: seq<string>): string
    requires |words| >= 1
    decreases |words|
  {
    if |words| == 1 then words[0] else words[0] + " " + Join(words[1..])
  }

  /** Joining the words of a split with single spaces gives back the original text. */
  lemma {:induction false} JoinSplit(s: string)
    ensures Join(Split(s)) == s
    decreases |s|
  {
    if s != [] {
      var rest := Split(s[1..]);
      JoinSplit(s[1..]);
      if s[0] != ' ' && |rest| > 1 {
        assert Join(rest) == rest[0] + " " + Join(rest[1..]);
      }
    }
  }

  /** No word of a split contains the separator. */
  lemma {:induction false} SplitWordsHaveNoSpace(s: string)
    ensures forall i :: 0 <= i < |Split(s)| ==> ' ' !in Split(s)[i]
    decreases |s|
  {
    if s != [] {
      SplitWordsHaveNoSpace(s[1..]);
    }
  }

  /** A split has one word more than the text has spaces. */
  lemma {:induction false} SplitCount(s: string)
    ensures |Split(s)| == multiset(s)[' '] + 1
    decreases |s|
  {
    if s != [] {
      SplitCount(s[1..]);
      assert s == [s[0]] + s[1..];
    }
  }

  /** Text without spaces glues onto the first word of what follows it. */
  lemma {:induction false} SplitPrefix(w: string, t: string)
    requires ' ' !in w
    ensures Split(w + t) == [w + Split(t)[0]] + Split(t)[1..]
    decreases |w|
  {
    if w != [] {
      SplitPrefix(w[1..], t);
      assert w[0] in w;
      assert (w + t)[0] == w[0] && (w + t)[1..] == w[1..] + t;
      var rest := Split(w[1..] + t);
      assert rest[0] == w[1..] + Split(t)[0] && rest[1..] == Split(t)[1..];
      assert Split(w + t) == [[w[0]] + rest[0]] + rest[1..];
      assert [w[0]] + (w[1..] + Split(t)[0]) == w + Split(t)[0];
    } else {
      assert w + t == t && w + Split(t)[0] == Split(t)[0];
      assert [Split(t)[0]] + Split(t)[1..] == Split(t);
    }
  }

  /** A leading space starts with an empty word. */
  lemma SpaceThen(t: string)
    ensures Split(" " + t) == [""] + Split(t)
  {
    assert (" " + t)[1..] == t;
  }

  /** Splitting words joined with single spaces gives the words back, when none holds a space. */
  lemma {:induction false} SplitJoin(words: seq<string>)
    requires |words| >= 1
    requires forall i :: 0 <= i < |words| ==> ' ' !in words[i]
    ensures Split(Join(words)) == words
    decreases |words|
  {
    if |words| == 1 {
      SplitPrefix(words[0], "");
      assert words[0] + "" == words[0];
    } else {
      var tail := Join(words[1..]);
      SplitJoin(words[1..]);
      SplitPrefix(words[0], " " + tail);
      SpaceThen(tail);
      assert Join(words) == words[0] + (" " + tail);
      assert Split(" " + tail)[0] == "" && Split(" " + tail)[1..] == words[1..];
      assert words[0] + "" == words[0];
      assert words == [words[0]] + words[1..];
    }
  }

  // ---------------------------------------------------------------------
  // The token slot of the header
  // ---------------------------------------------------------------------

  /**
   * `auth_header.split(" ")[1]`: the second word, or `None` when indexing
   * raises `IndexError` (the header has no space).
   */
  function HeaderToken(header: string): (t: Option<string>)
    ensures t.None? <==> ' ' !in header
    ensures t.Some? ==> ' ' !in t.value
  {
    SplitCount(header);
    SplitWordsHaveNoSpace(header);
    var words := Split(header);
    if |words| < 2 then None else Some(words[1])
  }

  /**
   * The header has the shape `<scheme> <token><rest>`: one word, one space,
   * the token, and then nothing or more space-separated text. The scheme
   * word is not checked to be `Bearer`.
   */
  ghost predicate BearerShape(header: string, scheme: string, token: string, rest: string) {
    && ' ' !in scheme && ' ' !in token
    && (rest == [] || rest[0] == ' ')
    && header == scheme + " " + token + rest
  }

  /** The extracted token is exactly the second word of a `<scheme> <token><rest>` header, in both directions. */
  lemma {:induction false} HeaderTokenShape(header: string, token: string)
    ensures HeaderToken(header) == Some(token) <==>
      exists scheme, rest :: BearerShape(header, scheme, token, rest)
  {
    if HeaderToken(header) == Some(token) {
      var words := Split(header);
      var rest := if |words| > 2 then " " + Join(words[2..]) else "";
      TokenHasShape(header);
      assert BearerShape(header, words[0], token, rest);
    }
    if exists scheme, rest :: BearerShape(header, scheme, token, rest) {
      var scheme, rest :| BearerShape(header, scheme, token, rest);
      ShapeToken(scheme, token, rest);
    }
  }

  /** A header with a token is its first word, a space, the token and the remaining words. */
  lemma TokenHasShape(header: string)
    requires HeaderToken(header).Some?
    ensures var words := Split(header);
      BearerShape(header, words[0], words[1], if |words| > 2 then " " + Join(words[2..]) else "")
  {
    var words := Split(header);
    SplitWordsHaveNoSpace(header);
    JoinSplit(header);
    var rest := if |words| > 2 then " " + Join(words[2..]) else "";
    assert Join(words[1..]) == words[1] + rest;
    assert header == words[0] + " " + Join(words[1..]);
  }

  /** The token of a header built in the `<scheme> <token><rest>` shape. */
  lemma ShapeToken(scheme: string, token: string, rest: string)
    requires ' ' !in scheme && ' ' !in token && (rest == [] || rest[0] == ' ')
    ensures HeaderToken(scheme + " " + token + rest) == Some(token)
  {
    var tail := token + rest;
    SplitPrefix(scheme, " " + tail);
    assert (" " + tail)[1..] == tail;
    SplitPrefix(token, rest);
    assert Split(rest)[0] == "";
    assert token + "" == token;
    assert scheme + " " + token + rest == scheme + (" " + tail);
  }

  // ---------------------------------------------------------------------
  // token_required
  // ---------------------------------------------------------------------

  /** The payload claims the handlers read; a claim may be absent. */
  datatype Claims = Claims(userId: Option<string>, role: Option<string>)

  /** What `jwt.decode(token, SECRET_KEY, algorithms=["HS256"])` returns or raises. */
  datatype DecodeOutcome =
    | Decoded(claims: Claims)
    | ExpiredSignature   // jwt.ExpiredSignatureError
    | InvalidToken       // any other jwt.InvalidTokenError

  type Decoder = string -> DecodeOutcome

  /** The decorators' verdict: the wrapped handler runs, a JSON error is returned, or an uncaught error escapes. */
  datatype AuthResult =
    | Authorized(userId: string, role: string)
    | Denied(status: nat, error: string)
      /** A decoded payload without `user_id` or `role`: the `KeyError` is not caught (HTTP 500). */
    | ServerError

  const Unauthorized: nat := 401
  const Forbidden: nat := 403
  const InvalidFormatError := "Invalid token format"
  const TokenMissingError := "Token is missing"
  const TokenExpiredError := "Token has expired"
  const InvalidTokenError := "Invalid token"
  const TeacherRequiredError := "Teacher access required"
  const StudentRequiredError := "Student access required"

  /** `token_required`, for the `Authorization` header (absent or present) and the decoder. */
  function TokenRequired(authorization: Option<string>, decode: Decoder): (r: AuthResult)
    ensures r.Denied? ==> r.status == Unauthorized
    ensures r == Denied(Unauthorized, InvalidFormatError) <==>
      authorization.Some? && ' ' !in authorization.value
    ensures r == Denied(Unauthorized, TokenMissingError) <==>
      authorization.None? || HeaderToken(authorization.value) == Some("")
    ensures r.Authorized? ==>
      && authorization.Some?
      && HeaderToken(authorization.value).Some?
      && HeaderToken(authorization.value).value != ""
      && decode(HeaderToken(authorization.value).value) == Decoded(Claims(Some(r.userId), Some(r.role)))
  {
    if authorization.Some? && HeaderToken(authorization.value).None? then
      Denied(Unauthorized, InvalidFormatError)
    else
      var token := if authorization.Some? then HeaderToken(authorization.value).value else "";
      if token == "" then Denied(Unauthorized, TokenMissingError)
      else match decode(token)
        case ExpiredSignature => Denied(Unauthorized, TokenExpiredError)
        case InvalidToken => Denied(Unauthorized, InvalidTokenError)
        case Decoded(claims) =>
          if claims.userId.None? || claims.role.None? then ServerError
          else Authorized(claims.userId.value, claims.role.value)
  }

  /**
   * A non-empty token in the second word is decoded and decides the verdict:
   * whatever the scheme word is, and whatever follows the token.
   */
  lemma TokenDecides(scheme: string, token: string, rest: string, decode: Decoder)
    requires ' ' !in scheme && ' ' !in token && token != "" && (rest == [] || rest[0] == ' ')
    ensures TokenRequired(Some(scheme + " " + token + rest), decode) ==
      match decode(token)
      case ExpiredSignature => Denied(Unauthorized, TokenExpiredError)
      case InvalidToken => Denied(Unauthorized, InvalidTokenError)
      case Decoded(Claims(Some(u), Some(role))) => Authorized(u, role)
      case Decoded(_) => ServerError
  {
    ShapeToken(scheme, token, rest);
  }

  /** The verdict is reached without decoding when the header yields no token. */
  lemma NoTokenNoDecode(authorization: Option<string>, d1: Decoder, d2: Decoder)
    requires authorization.None? || HeaderToken(authorization.value) in {None, Some("")}
    ensures TokenRequired(authorization, d1) == TokenRequired(authorization, d2)
    ensures !TokenRequired(authorization, d1).Authorized?
  {
  }

  /** `Bearer` followed by nothing, or by two spaces before the token, reads as a missing token. */
  lemma EmptySecondWord(scheme: string, rest: string, decode: Decoder)
    requires ' ' !in scheme && (rest == [] || rest[0] == ' ')
    ensures TokenRequired(Some(scheme + " " + rest), decode) == Denied(Unauthorized, TokenMissingError)
  {
    ShapeToken(scheme, "", rest);
    assert scheme + " " + "" + rest == scheme + " " + rest;
  }

  // ---------------------------------------------------------------------
  // teacher_required / student_required
  // ---------------------------------------------------------------------

  /** A token check followed by a role comparison (403 on mismatch). */
  function RoleRequired(authorization: Option<string>, decode: Decoder, role: string, error: string): (r: AuthResult)
    ensures r.Authorized? <==>
      TokenRequired(authorization, decode).Authorized? && TokenRequired(authorization, decode).role == role
    ensures r == Denied(Forbidden, error) <==>
      TokenRequired(authorization, decode).Authorized? && TokenRequired(authorization, decode).role != role
    ensures !TokenRequired(authorization, decode).Authorized? ==> r == TokenRequired(authorization, decode)
    ensures r.Authorized? ==> r == TokenRequired(authorization, decode)
  {
    var verdict := TokenRequired(authorization, decode);
    if verdict.Authorized? && verdict.role != role then Denied(Forbidden, error)
    else verdict
  }

  /** `teacher_required` */
  function TeacherRequired(authorization: Option<string>, decode: Decoder): (r: AuthResult)
    ensures r.Authorized? ==> r.role == "teacher"
    ensures r.Denied? && r.status == Forbidden ==> r.error == TeacherRequiredError
  {
    RoleRequired(authorization, decode, "teacher", TeacherRequiredError)
  }

  /** `student_required` */
  function StudentRequired(authorization: Option<string>, decode: Decoder): (r: AuthResult)
    ensures r.Authorized? ==> r.role == "student"
    ensures r.Denied? && r.status == Forbidden ==> r.error == StudentRequiredError
  {
    RoleRequired(authorization, decode, "student", StudentRequiredError)
  }

  /**
   * For one request, at most one of the two guards lets the handler run; when
   * the token is valid, exactly one of them answers 403 unless the role is
   * neither, in which case both do; without a valid token both answer as the
   * token check does.
   */
  lemma GuardsExclusive(authorization: Option<string>, decode: Decoder)
    ensures !(TeacherRequired(authorization, decode).Authorized? && StudentRequired(authorization, decode).Authorized?)
    ensures TokenRequired(authorization, decode).Authorized? ==>
      var role := TokenRequired(authorization, decode).role;
      && (role == "teacher" ==>
            TeacherRequired(authorization, decode).Authorized? &&
            StudentRequired(authorization, decode) == Denied(Forbidden, StudentRequiredError))
      && (role == "student" ==>
            StudentRequired(authorization, decode).Authorized? &&
            TeacherRequired(authorization, decode) == Denied(Forbidden, TeacherRequiredError))
      && (role != "teacher" && role != "student" ==>
            TeacherRequired(authorization, decode) == Denied(Forbidden, TeacherRequiredError) &&
            StudentRequired(authorization, decode) == Denied(Forbidden, StudentRequiredError))
    ensures !TokenRequired(authorization, decode).Authorized? ==>
      TeacherRequired(authorization, decode) == StudentRequired(authorization, decode) == TokenRequired(authorization, decode)
  {
  }
}
