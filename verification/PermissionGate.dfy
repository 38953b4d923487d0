/** The retry loop of backend/internal/acchttp/client.go and the permission gate of
    backend/internal/accruntime/client.go that sends its answer through it. */
module PermissionGate {
  import opened Whitespace
  import opened Wrappers

  /** What one request meets with: an answer, whose error body is read up to the limit, the
      end of its context, or any other failure of the network. */
  datatype Reply =
    | Answered(status: nat, body: string, readable: bool)
    | ContextEnded(text: string)
    | Failed(text: string)

  /** One attempt: the context may end while waiting for it, and the request may not be
      buildable. */
  datatype Attempt = Attempt(endedBefore: Option<string>, unbuildable: Option<string>, reply: Reply)

  datatype Result = Response(status: nat, readable: bool) | Error(text: string)

  // ----- Error texts -----

  const HEAD := "acchttp: HTTP "
  const EXHAUSTED := "acchttp: retries exhausted: "

  function Digits(n: nat): (s: string)
    requires 100 <= n < 1000
    ensures |s| == 3 && forall i :: 0 <= i < 3 ==> '0' <= s[i] <= '9'
    ensures 100 * (s[0] as int - 48) + 10 * (s[1] as int - 48) + (s[2] as int - 48) == n
  {
    ['0' + (n / 100) as char, '0' + (n / 10 % 10) as char, '0' + (n % 10) as char]
  }

  /** The error of an answer with this status; `net/http` accepts three-digit codes only. */
  function StatusError(status: nat, body: string): string
    requires 100 <= status < 1000
  {
    HEAD + Digits(status) + ":" + (" " + TrimSpace(body))
  }

  /** What `acchttp: HTTP (\d{3}):` matches, at the start of `s`. */
  predicate StartsWithCode(s: string) {
    && |s| >= 18 && s[..14] == HEAD && s[17] == ':'
    && forall i :: 14 <= i < 17 ==> '0' <= s[i] <= '9'
  }

  function CodeOf(s: string): nat
    requires StartsWithCode(s)
  {
    100 * (s[14] as int - '0' as int) + 10 * (s[15] as int - '0' as int) + (s[16] as int - '0' as int)
  }

  /** All matches from left to right, each behind the one before. */
  function Codes(s: string): seq<nat> {
    if s == "" then [] else if StartsWithCode(s) then [CodeOf(s)] + Codes(s[18..]) else Codes(s[1..])
  }

  /** `httpStatusFromError`: the last match. */
  function StatusOf(text: string): Option<nat> {
    var codes := Codes(text);
    if codes == [] then None else Some(codes[|codes| - 1])
  }

  /** The code that a text starts with is read, and what follows it is read on its own. */
  lemma FirstCode(head: string, digits: string, rest: string)
    requires head == HEAD && |digits| == 3 && forall i :: 0 <= i < 3 ==> '0' <= digits[i] <= '9'
    ensures var s := head + digits + ":" + rest;
            StartsWithCode(s) && s[18..] == rest &&
            CodeOf(s) == 100 * (digits[0] as int - 48) + 10 * (digits[1] as int - 48) + (digits[2] as int - 48)
  {
    var s := head + digits + ":" + rest;
    assert s[..14] == head;
    assert s[14] == digits[0] && s[15] == digits[1] && s[16] == digits[2] && s[17] == ':';
  }

  lemma OwnCode(status: nat, rest: string)
    requires 100 <= status < 1000
    ensures Codes(HEAD + Digits(status) + ":" + rest) == [status] + Codes(rest)
  {
    FirstCode(HEAD, Digits(status), rest);
  }

  /** How a code starts. */
  lemma CodeStart(s: string)
    ensures StartsWithCode(s) ==> s[0] == 'a' && s[1] == 'c' && s[9] == 'H'
    ensures StartsWithCode(s) ==>
              && |s| >= 18 && s[..14] == "acchttp: HTTP " && s[17] == ':'
              && s[14] as int - 48 in {0, 1, 2, 3, 4, 5, 6, 7, 8, 9}
              && s[15] as int - 48 in {0, 1, 2, 3, 4, 5, 6, 7, 8, 9}
              && s[16] as int - 48 in {0, 1, 2, 3, 4, 5, 6, 7, 8, 9}
  {
    assert |s| >= 14 ==> s[0] == s[..14][0] && s[1] == s[..14][1] && s[9] == s[..14][9];
  }

  /** Text in which no code starts adds none to what stands behind it. */
  lemma {:induction false} CodesBehind(pre: string, s: string)
    requires forall i :: 0 <= i < |pre| ==> !StartsWithCode((pre + s)[i..])
    ensures Codes(pre + s) == Codes(s)
  {
    var t := pre + s;
    if pre == "" {
      assert t == s;
    } else {
      assert t[0..] == t && t[1..] == pre[1..] + s;
      forall i | 0 <= i < |pre[1..]|
        ensures !StartsWithCode((pre[1..] + s)[i..])
      {
        assert (pre[1..] + s)[i..] == t[i + 1..];
      }
      CodesBehind(pre[1..], s);
    }
  }

  lemma ExhaustedHidesNothing(s: string)
    ensures Codes(EXHAUSTED + s) == Codes(s)
  {
    var t := EXHAUSTED + s;
    forall i | 0 <= i < |EXHAUSTED|
      ensures !StartsWithCode(t[i..])
    {
      CodeStart(t[i..]);
      assert t[i] == EXHAUSTED[i];
      assert t[9] == EXHAUSTED[9] == 'r';
      assert i + 1 < |EXHAUSTED| ==> t[i + 1] == EXHAUSTED[i + 1];
    }
    CodesBehind(EXHAUSTED, s);
  }

  /** The status read from an error is the one the server answered with, whether the loop
      gave up at once or after its last attempt, exactly if the body quotes no such error
      or the last one it quotes has the same status. */
  lemma StatusIsReadIff(status: nat, body: string)
    requires 100 <= status < 1000
    ensures StatusOf(EXHAUSTED + StatusError(status, body)) == StatusOf(StatusError(status, body))
    ensures StatusOf(StatusError(status, body)) == Some(status) <==>
            StatusOf(TrimSpace(body)) == None || StatusOf(TrimSpace(body)) == Some(status)
    ensures StatusOf(TrimSpace(body)).Some? ==> StatusOf(StatusError(status, body)) == StatusOf(TrimSpace(body))
  {
    var rest := TrimSpace(body);
    OwnCode(status, " " + rest);
    CodeStart(" " + rest);
    assert (" " + rest)[1..] == rest;
    ExhaustedHidesNothing(StatusError(status, body));
  }

  /** An answer 500 whose body quotes a 404 is read as 404. */
  lemma QuotedStatusDecides()
    ensures var quoted := "acchttp: HTTP " + "404" + ":";
            && StatusError(500, quoted) == "acchttp: HTTP " + "500" + ":" + (" " + quoted)
            && StatusOf(StatusError(500, quoted)) == Some(404)
  {
    SomeDigits();
    var body := HEAD + Digits(404) + ":";
    assert body[0] == HEAD[0] && body[|body| - 1] == ':';
    TrimmedIff(body);
    OwnCode(404, "");
    assert body + "" == body;
    StatusIsReadIff(500, body);
  }

  lemma SomeDigits()
    ensures Digits(404) == "404" && Digits(500) == "500"
    ensures EXHAUSTED == "acchttp: retries exhausted: "
  {
  }

  // ----- The retry loop -----

  function Upper(c: char): char {
    if 'a' <= c <= 'z' then (c as int - 32) as char
    else if c == '\U{131}' then 'I' else if c == '\U{17F}' then 'S' else c
  }

  /** The capital of each letter; only these two others have one among the letters used here. */
  lemma CapitalIs(c: char)
    ensures 'a' <= c <= 'z' ==> Upper(c) as int == c as int - 32
    ensures Upper('\U{131}') == 'I' && Upper('\U{17F}') == 'S'
    ensures !('a' <= c <= 'z') && c != '\U{131}' && c != '\U{17F}' ==> Upper(c) == c
  {
  }

  /** `isSafeMethod`; no other character has one of these letters as its capital. */
  predicate IsSafe(verb: string) {
    var v := Capitals(verb);
    v == "GET" || v == "HEAD" || v == "OPTIONS"
  }

  function Capitals(s: string): string {
    seq(|s|, i requires 0 <= i < |s| => Upper(s[i]))
  }

  /** Which verbs may be sent again, in any case. */
  lemma SafeVerbs()
    ensures IsSafe("GET") && IsSafe("HEAD") && IsSafe("OPTIONS") && IsSafe("get") && IsSafe("Head")
    ensures !IsSafe("POST") && !IsSafe("PUT") && !IsSafe("PATCH") && !IsSafe("DELETE") && !IsSafe("post") && !IsSafe("")
  {
    assert Capitals("GET") == "GET" && Capitals("get") == "GET";
    assert Capitals("HEAD") == "HEAD" && Capitals("Head") == "HEAD";
    assert Capitals("OPTIONS") == "OPTIONS";
    assert Capitals("POST")[0] == Capitals("PUT")[0] == Capitals("PATCH")[0] == Capitals("post")[0] == 'P';
    assert Capitals("DELETE")[0] == 'D';
  }

  /** The request of attempt `k` reaches the wire. */
  predicate Reaches(a: Attempt, k: nat) {
    (k == 0 || a.endedBefore.None?) && a.unbuildable.None?
  }

  /** The attempt ends the loop: everything but a network failure or a status from 500 up. */
  predicate Decisive(a: Attempt, k: nat) {
    Reaches(a, k) ==> a.reply.ContextEnded? || (a.reply.Answered? && a.reply.status < 500)
  }

  function ReplyError(r: Reply): string
    requires r.Answered? ==> 400 <= r.status < 1000
  {
    match r
    case Answered(status, body, _) => StatusError(status, body)
    case ContextEnded(text) => text
    case Failed(text) => text
  }

  function Decided(a: Attempt, k: nat): Result
    requires a.reply.Answered? ==> a.reply.status < 1000
  {
    if k > 0 && a.endedBefore.Some? then Error(a.endedBefore.value)
    else if a.unbuildable.Some? then Error(a.unbuildable.value)
    else if a.reply.Answered? && a.reply.status < 400 then Response(a.reply.status, a.reply.readable)
    else Error(ReplyError(a.reply))
  }

  /** What a reply to a request means: below 400 it is the response, below 500 an error at once,
      from 500 up and without an answer a reason to try again, and the end of the context the
      end. */
  lemma ReplyMeans(a: Attempt, k: nat)
    requires a.endedBefore.None? && a.unbuildable.None?
    requires a.reply.Answered? ==> a.reply.status < 1000
    ensures match a.reply
            case Answered(status, body, readable) =>
              if status < 400 then Decisive(a, k) && Decided(a, k) == Response(status, readable)
              else if status < 500 then Decisive(a, k) && Decided(a, k) == Error(StatusError(status, body))
              else !Decisive(a, k)
            case ContextEnded(text) => Decisive(a, k) && Decided(a, k) == Error(text)
            case Failed(_) => !Decisive(a, k)
  {
  }

  /** An attempt that sends nothing ends the loop with its own error. */
  lemma NoRequestMeans(a: Attempt, k: nat)
    requires a.reply.Answered? ==> a.reply.status < 1000
    ensures k > 0 && a.endedBefore.Some? ==> Decisive(a, k) && Decided(a, k) == Error(a.endedBefore.value)
    ensures (k == 0 || a.endedBefore.None?) && a.unbuildable.Some? ==>
              Decisive(a, k) && Decided(a, k) == Error(a.unbuildable.value)
  {
  }

  ghost predicate HasCodes(attempts: nat -> Attempt) {
    forall k: nat :: attempts(k).reply.Answered? ==> attempts(k).reply.status < 1000
  }

  ghost predicate NoneDecisive(attempts: nat -> Attempt, n: nat) {
    forall k: nat :: k < n ==> !Decisive(attempts(k), k)
  }

  class Client {
    const maxRetries: nat
    /** How many requests went out. */
    var sent: nat

    /** `New`: the number of retries is at least none and at most five. */
    constructor (maxRetries: int)
      ensures 0 <= this.maxRetries <= 5 && sent == 0
      ensures 0 <= maxRetries <= 5 ==> this.maxRetries == maxRetries
      ensures maxRetries < 0 ==> this.maxRetries == 0
      ensures maxRetries > 5 ==> this.maxRetries == 5
    {
      var retries := maxRetries;
      if retries < 0 {
        retries := 0;
      }
      if retries > 5 {
        retries := 5;
      }
      this.maxRetries, sent := retries, 0;
    }

    /** How often a request is repeated at most: an unsafe one never. */
    function Retries(verb: string): nat {
      if IsSafe(verb) then maxRetries else 0
    }

    /** `Do`: the first decisive attempt within the limit decides, and without one the last
        attempt's error is reported. An unsafe request goes out at most once. */
    method Do(verb: string, badURL: Option<string>, attempts: nat -> Attempt) returns (r: Result)
      requires HasCodes(attempts)
      modifies this`sent
      ensures badURL.Some? ==> r == Error(badURL.value) && sent == old(sent)
      ensures badURL.None? ==>
                forall k: nat | k <= Retries(verb) && NoneDecisive(attempts, k) && Decisive(attempts(k), k) ::
                r == Decided(attempts(k), k) && sent == old(sent) + k + if Reaches(attempts(k), k) then 1 else 0
      ensures badURL.None? && NoneDecisive(attempts, Retries(verb) + 1) ==>
                && r == Error(EXHAUSTED + ReplyError(attempts(Retries(verb)).reply))
                && sent == old(sent) + Retries(verb) + 1
      ensures old(sent) <= sent <= old(sent) + Retries(verb) + 1
      ensures !IsSafe(verb) ==> sent <= old(sent) + 1
    {
      var retries := maxRetries;
      if !IsSafe(verb) {
        retries := 0;
      }
      if badURL.Some? {
        return Error(badURL.value);
      }
      var lastErr := "";
      for attempt := 0 to retries + 1
        invariant NoneDecisive(attempts, attempt) && sent == old(sent) + attempt
        invariant attempt > 0 ==> lastErr == ReplyError(attempts(attempt - 1).reply)
      {
        var a := attempts(attempt);
        if attempt > 0 && a.endedBefore.Some? {
          return Error(a.endedBefore.value);
        }
        if a.unbuildable.Some? {
          return Error(a.unbuildable.value);
        }
        sent := sent + 1;
        if a.reply.Failed? {
          lastErr := a.reply.text;
          continue;
        }
        if a.reply.ContextEnded? {
          return Error(a.reply.text);
        }
        if a.reply.status >= 400 {
          lastErr := StatusError(a.reply.status, a.reply.body);
          if a.reply.status < 500 {
            return Error(lastErr);
          }
          continue;
        }
        return Response(a.reply.status, a.reply.readable);
      }
      r := Error(EXHAUSTED + lastErr);
    }

    /** `Post`: one request, and what becomes of it. */
    method Post(badURL: Option<string>, attempts: nat -> Attempt) returns (r: Result)
      requires HasCodes(attempts)
      modifies this`sent
      ensures sent == old(sent) + if badURL.None? && attempts(0).unbuildable.None? then 1 else 0
      ensures r == match PostError(badURL, attempts(0))
                   case Some(text) => Error(text)
                   case None => Response(attempts(0).reply.status, attempts(0).reply.readable)
    {
      r := Do("POST", badURL, attempts);
      assert Capitals("POST")[0] == 'P';
      assert NoneDecisive(attempts, 0);
      assert NoneDecisive(attempts, 1) <==> !Decisive(attempts(0), 0);
    }

    /** `AnswerPermission`. It succeeds only on an answer below 400 to the one request that
        it sends, and it sends none if an id is missing. */
    method AnswerPermission(d: Decision, badURL: Option<string>, attempts: nat -> Attempt) returns (v: Verdict)
      requires HasCodes(attempts)
      modifies this`sent
      ensures v == Missing <==>
              || TrimSpace(d.dispatchID) == "" || TrimSpace(d.toolCallID) == ""
              || TrimSpace(d.sourceRef) == "" || TrimSpace(d.correlationID) == ""
      ensures sent == old(sent) + if d.Complete() && badURL.None? && attempts(0).unbuildable.None? then 1 else 0
      ensures v == Delivered <==>
              && d.Complete() && badURL.None? && attempts(0).unbuildable.None?
              && attempts(0).reply.Answered? && attempts(0).reply.status < 400 && attempts(0).reply.readable
      ensures v == GateUnavailable <==>
              d.Complete() && PostError(badURL, attempts(0)).Some? &&
              StatusOf(PostError(badURL, attempts(0)).value) in [Some(404), Some(501)]
    {
      if !d.Complete() {
        return Missing;
      }
      var r := Post(badURL, attempts);
      if r.Error? {
        var code := StatusOf(r.text);
        if code.Some? && (code.value == 404 || code.value == 501) {
          return GateUnavailable;
        }
        return OtherError;
      }
      v := if r.readable then Delivered else OtherError;
    }
  }

  // ----- The permission gate -----

  datatype Decision = Decision(dispatchID: string, toolCallID: string, sourceRef: string, correlationID: string) {
    /** `validate`. */
    predicate Complete() {
      && TrimSpace(dispatchID) != "" && TrimSpace(toolCallID) != ""
      && TrimSpace(sourceRef) != "" && TrimSpace(correlationID) != ""
    }
  }

  datatype Verdict = Delivered | Missing | GateUnavailable | OtherError

  /** The error a single unsafe request ends with. */
  function PostError(badURL: Option<string>, a: Attempt): Option<string>
    requires a.reply.Answered? ==> a.reply.status < 1000
  {
    if badURL.Some? then badURL
    else if a.unbuildable.Some? then a.unbuildable
    else if a.reply.ContextEnded? then Some(a.reply.text)
    else if a.reply.Failed? then Some(EXHAUSTED + a.reply.text)
    else if a.reply.status < 400 then None
    else if a.reply.status < 500 then Some(StatusError(a.reply.status, a.reply.body))
    else Some(EXHAUSTED + StatusError(a.reply.status, a.reply.body))
  }

  /** An error answer is reported as a missing gate exactly if its status says so, unless
      its body quotes another error of this client: then the quoted status decides. */
  lemma UnavailableIff(a: Attempt)
    requires a.unbuildable.None? && a.reply.Answered? && 400 <= a.reply.status < 1000
    ensures var quoted := StatusOf(TrimSpace(a.reply.body));
            StatusOf(PostError(None, a).value) == if quoted.Some? then quoted else Some(a.reply.status)
  {
    StatusIsReadIff(a.reply.status, a.reply.body);
  }
}
