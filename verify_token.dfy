/** The `verifyToken` middleware of backend/middleware/verifyToken.js: it takes the token from
    the `Authorization` header, answers 401 when there is none or it does not verify, and
    otherwise records the user id and passes the request on. `jwt.verify` is a library call
    whose code is not part of this model; it is passed in as `verify`, giving the `userId` of
    the decoded payload or nothing when the token is expired or invalid. */
module VerifyToken {
  import opened Js
  import opened QuizSummary

  const NoToken := "No token provided."
  const MalformedToken := "Malformed token."
  const InvalidToken := "Session expired or invalid token."

  /** `authHeader.split(" ")[1]`: the second space-separated field, which is `undefined` when
      the header holds no space. */
  function SecondField(header: string): (token: Option<string>)
    ensures token.Some? <==> ' ' in header
    ensures token.Some? ==> ' ' !in token.value
  {
    var parts := Split(header, ' ');
    assert ' ' in header ==> |parts| >= 2 by {
      if ' ' in header {
        SplitHasTwo(header, ' ');
      }
    }
    assert ' ' !in header ==> |parts| == 1 by {
      if ' ' !in header {
        SplitNone(header, ' ');
      }
    }
    if |parts| >= 2 then Some(parts[1]) else None
  }

  /** The token is the word after the first space, whatever the first word is. */
  lemma AfterFirstWord(word: string, token: string)
    requires ' ' !in word && ' ' !in token
    ensures SecondField(word + " " + token) == Some(token)
  {
    assert word + " " + token == word + [' '] + token;
    SplitAtFirst(word, token, ' ');
    SplitNone(token, ' ');
  }

  /** Anything after a second space is ignored. */
  lemma LaterFieldsIgnored(word: string, token: string, rest: string)
    requires ' ' !in word && ' ' !in token
    ensures SecondField(word + " " + token + " " + rest) == Some(token)
  {
    assert word + " " + token + " " + rest == word + [' '] + (token + [' '] + rest);
    SplitAtFirst(word, token + [' '] + rest, ' ');
    SplitAtFirst(token, rest, ' ');
  }

  /** A bare scheme has no token, and a doubled space gives an empty one: both are malformed. */
  lemma MalformedHeaders()
    ensures SecondField("Bearer") == None
    ensures SecondField("Bearer  x") == Some("")
  {
    assert ' ' !in "Bearer" by {
      assert forall k | 0 <= k < 6 :: "Bearer"[k] != ' ';
    }
    assert "Bearer  x" == "Bearer" + [' '] + " x";
    SplitAtFirst("Bearer", " x", ' ');
    assert " x" == "" + [' '] + "x";
    SplitAtFirst("", "x", ' ');
  }

  /** The error reply the middleware sends. */
  datatype Reply = Reply(status: int, error: string)

  /** The parts of a request the middleware reads and writes. */
  class Request {
    const authorization: Option<string>
    var userId: Option<UserId>
    var nextCalls: nat
    var reply: Option<Reply>

    constructor (authorization: Option<string>)
      ensures this.authorization == authorization && userId == None && nextCalls == 0 && reply == None
    {
      this.authorization := authorization;
      userId := None;
      nextCalls := 0;
      reply := None;
    }

    /** Refuse a request without a header, without a token or with a token that does not
        verify, each with 401 and its own message, without calling `next`; otherwise set the
        user id from the token and call `next` once. */
    method VerifyToken(verify: string -> Option<UserId>)
      modifies this
      ensures !Truthy(authorization) ==>
        reply == Some(Reply(401, NoToken)) && userId == old(userId) && nextCalls == old(nextCalls)
      ensures Truthy(authorization) && !Truthy(SecondField(authorization.value)) ==>
        reply == Some(Reply(401, MalformedToken)) && userId == old(userId) && nextCalls == old(nextCalls)
      ensures (Truthy(authorization) && Truthy(SecondField(authorization.value))
               && verify(SecondField(authorization.value).value).None?) ==>
        reply == Some(Reply(401, InvalidToken)) && userId == old(userId) && nextCalls == old(nextCalls)
      ensures (Truthy(authorization) && Truthy(SecondField(authorization.value))
               && verify(SecondField(authorization.value).value).Some?) ==>
        && userId == verify(SecondField(authorization.value).value)
        && nextCalls == old(nextCalls) + 1 && reply == old(reply)
    {
      if !Truthy(authorization) {
        reply := Some(Reply(401, NoToken));
        return;
      }
      var token := SecondField(authorization.value);
      if !Truthy(token) {
        reply := Some(Reply(401, MalformedToken));
        return;
      }
      var decoded := verify(token.value);
      if decoded.None? {
        reply := Some(Reply(401, InvalidToken));
        return;
      }
      userId := Some(decoded.value);
      nextCalls := nextCalls + 1;
    }
  }

  /** A token signed for a user at login, sent as `Bearer <token>` the way the quiz page sends
      it, reaches `verify` unchanged; when it verifies to that user, the request proceeds as
      that user. */
  lemma BearerHeaderCarriesToken(token: string)
    requires token != "" && ' ' !in token
    ensures Truthy(Some("Bearer " + token))
    ensures SecondField("Bearer " + token) == Some(token) && Truthy(Some(token))
  {
    assert ' ' !in "Bearer" by {
      assert forall k | 0 <= k < 6 :: "Bearer"[k] != ' ';
    }
    AfterFirstWord("Bearer", token);
    assert "Bearer " + token == "Bearer" + " " + token;
  }
}
