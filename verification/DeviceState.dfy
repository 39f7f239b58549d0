/** The guest's device state transitions: authorization text, transition rules, chains. */
module DeviceState {
  import opened Sequences
  import opened Text

  // ---------- splitting at most n ways

  function IndexOf(s: string, c: char): (i: nat)
    ensures i <= |s| && c !in s[..i] && (i < |s| ==> s[i] == c)
  {
    if s == [] || s[0] == c then 0
    else
      var i := 1 + IndexOf(s[1..], c);
      assert s[..i] == [s[0]] + s[1..][..i - 1];
      i
  }

  /** The state of a bounded split: the unread text, None once exhausted, and the pieces still allowed. */
  datatype Cursor = Cursor(rest: Option<string>, left: nat)

  /** The next piece and the state after it. */
  function NextPiece(c: Cursor, sep: char): (Option<string>, Cursor) {
    if c.left == 0 || c.rest.None? then (None, c)
    else
      var text := c.rest.value;
      var i := IndexOf(text, sep);
      if c.left == 1 || i == |text| then (Some(text), Cursor(None, c.left - 1))
      else (Some(text[..i]), Cursor(Some(text[i + 1..]), c.left - 1))
  }

  class SplitN {
    const sep: char
    var cursor: Cursor

    constructor (text: string, n: nat, sep: char)
      ensures cursor == Cursor(Some(text), n) && this.sep == sep
    {
      this.sep := sep;
      cursor := Cursor(Some(text), n);
    }

    method Next() returns (piece: Option<string>)
      modifies this`cursor
      ensures (piece, cursor) == NextPiece(old(cursor), sep)
    {
      if cursor.left == 0 || cursor.rest.None? {
        return None;
      }
      var text := cursor.rest.value;
      if cursor.left == 1 {
        cursor := Cursor(None, 0);
        return Some(text);
      }
      var i := IndexOf(text, sep);
      if i == |text| {
        cursor := Cursor(None, cursor.left - 1);
        return Some(text);
      }
      cursor := Cursor(Some(text[i + 1..]), cursor.left - 1);
      return Some(text[..i]);
    }
  }

  // ---------- authorization

  datatype AuthError = InvalidFormat | MissingIdentity | MissingAction | MissingNonce | EmptyIdentity | ActionMismatch

  type AuthResult = Result<(string, string), AuthError>

  function Authorize(signature: string, expectedAction: string): AuthResult {
    if !("auth:" <= signature) then Err(InvalidFormat)
    else
      var (identity, c1) := NextPiece(Cursor(Some(signature[5..]), 3), ':');
      var (action, c2) := NextPiece(c1, ':');
      var (nonce, c3) := NextPiece(c2, ':');
      if identity.None? then Err(MissingIdentity)
      else if action.None? then Err(MissingAction)
      else if nonce.None? then Err(MissingNonce)
      else if identity.value == "" then Err(EmptyIdentity)
      else if action.value != expectedAction then Err(ActionMismatch)
      else Ok((identity.value, expectedAction))
  }

  method VerifyAuthorization(signature: string, expectedAction: string) returns (r: AuthResult)
    ensures r == Authorize(signature, expectedAction)
  {
    if !("auth:" <= signature) {
      return Err(InvalidFormat);
    }
    var parts := new SplitN(signature[5..], 3, ':');
    var identity := parts.Next();
    if identity.None? { return Err(MissingIdentity); }
    var action := parts.Next();
    if action.None? { return Err(MissingAction); }
    var nonce := parts.Next();
    if nonce.None? { return Err(MissingNonce); }
    if identity.value == "" { return Err(EmptyIdentity); }
    if action.value != expectedAction { return Err(ActionMismatch); }
    return Ok((identity.value, expectedAction));
  }

  function AuthText(identity: string, action: string, nonce: string): string {
    "auth:" + (identity + ":" + (action + ":" + nonce))
  }

  lemma NextOfPrinted(p: string, rest: string, left: nat)
    requires ':' !in p && left >= 2
    ensures NextPiece(Cursor(Some(p + ":" + rest), left), ':') == (Some(p), Cursor(Some(rest), left - 1))
  {
    var s := p + ":" + rest;
    var i := IndexOf(s, ':');
    assert s[|p|] == ':';
    assert forall j :: 0 <= j < |p| ==> s[j] == p[j];
    assert forall j :: 0 <= j < i ==> s[..i][j] == s[j];
    assert i == |p|;
    assert s[..|p|] == p && s[|p| + 1..] == rest;
  }

  lemma NextSplits(text: string, left: nat)
    requires left >= 2
    ensures var (piece, c) := NextPiece(Cursor(Some(text), left), ':');
      && piece.Some? && ':' !in piece.value && c.left == left - 1
      && (c.rest.Some? ==> text == piece.value + ":" + c.rest.value)
  {
    var i := IndexOf(text, ':');
    if i < |text| {
      assert text == text[..i] + ":" + text[i + 1..];
    } else {
      assert text[..i] == text;
    }
  }

  /** Parsing succeeds exactly on "auth:" identity ":" action ":" nonce, with a non-empty identity free
      of colons and the expected action; the nonce may contain colons. */
  lemma AuthorizeIff(signature: string, action: string)
    requires ':' !in action
    ensures Authorize(signature, action).Ok? <==>
      exists identity, nonce :: identity != "" && ':' !in identity && signature == AuthText(identity, action, nonce)
  {
    if Authorize(signature, action).Ok? {
      var nonce := AuthorizedText(signature, action);
    }
    forall identity, nonce | identity != "" && ':' !in identity && signature == AuthText(identity, action, nonce)
      ensures Authorize(signature, action) == Ok((identity, action))
    {
      AuthorizeReads(identity, action, nonce);
    }
  }

  lemma AuthorizedText(signature: string, action: string) returns (nonce: string)
    requires Authorize(signature, action).Ok?
    ensures var identity := Authorize(signature, action).value.0;
      identity != "" && ':' !in identity && signature == AuthText(identity, action, nonce)
  {
    var text := signature[5..];
    assert signature == "auth:" + text;
    NextSplits(text, 3);
    var (identity, c1) := NextPiece(Cursor(Some(text), 3), ':');
    var (read, c2) := NextPiece(c1, ':');
    NextSplits(c1.rest.value, 2);
    nonce := c2.rest.value;
  }

  /** Reading a printed authorization gives back its identity, so the identity is unique. */
  lemma AuthorizeReads(identity: string, action: string, nonce: string)
    requires identity != "" && ':' !in identity && ':' !in action
    ensures Authorize(AuthText(identity, action, nonce), action) == Ok((identity, action))
  {
    var signature := AuthText(identity, action, nonce);
    assert signature[5..] == identity + ":" + (action + ":" + nonce);
    NextOfPrinted(identity, action + ":" + nonce, 3);
    NextOfPrinted(action, nonce, 2);
  }

  lemma SplitAtFirst(text: string, c: char)
    ensures var i := IndexOf(text, c);
      Split(text, c) == if i == |text| then [text] else [text[..i]] + Split(text[i + 1..], c)
  {
    var i := IndexOf(text, c);
    if i == |text| {
      assert text[..i] == text;
      SplitPlain(text, c);
    } else {
      assert text == text[..i] + [c] + text[i + 1..];
      SplitFirst(text[..i], text[i + 1..], c);
    }
  }

  /** The bounded split read three times against the full split at every colon: the result and the error depend
      on the number of pieces, the first piece and the second. */
  lemma AuthorizeBySplit(signature: string, action: string)
    ensures !("auth:" <= signature) ==> Authorize(signature, action) == Err(InvalidFormat)
    ensures "auth:" <= signature ==>
      var r, pieces := Authorize(signature, action), Split(signature[5..], ':');
      && (|pieces| == 1 ==> r == Err(MissingAction))
      && (|pieces| == 2 ==> r == Err(MissingNonce))
      && (|pieces| >= 3 && pieces[0] == "" ==> r == Err(EmptyIdentity))
      && (|pieces| >= 3 && pieces[0] != "" && pieces[1] != action ==> r == Err(ActionMismatch))
      && (|pieces| >= 3 && pieces[0] != "" && pieces[1] == action ==> r == Ok((pieces[0], action)))
  {
    if "auth:" <= signature {
      var text := signature[5..];
      var i := IndexOf(text, ':');
      SplitAtFirst(text, ':');
      if i < |text| { SplitAtFirst(text[i + 1..], ':'); }
    }
  }

  // ---------- transitions

  const EXPECTED_ACTION := "device_state_transition"

  predicate IsAuthorizedController(identity: string) {
    identity == "admin" || identity == "device-manager"
    || identity == "factory-zone-a" || identity == "provisioning-service"
  }

  datatype RuleError = EmptyPrevious | EmptyNew | NoOp | EmptyData | NonHex

  predicate AllHex(s: string) {
    forall i :: 0 <= i < |s| ==> IsHexDigit(s[i])
  }

  function ValidateTransitionRules(previous: string, next: string, data: string): Result<(), RuleError> {
    if previous == "" then Err(EmptyPrevious)
    else if next == "" then Err(EmptyNew)
    else if previous == next then Err(NoOp)
    else if data == "" then Err(EmptyData)
    else if !AllHex(previous) || !AllHex(next) then Err(NonHex)
    else Ok(())
  }

  datatype Transition = Transition(previous: string, next: string, data: string, authorization: string)

  datatype TransitionOutput = TransitionOutput(
    transitionValid: bool, authorized: bool, previous: string, next: string, timestamp: nat)

  function VerifyStateTransition(t: Transition): Result<TransitionOutput, AuthError> {
    match Authorize(t.authorization, EXPECTED_ACTION)
    case Err(e) => Err(e)
    case Ok((identity, _)) =>
      var authorized := IsAuthorizedController(identity);
      var rulesOk := ValidateTransitionRules(t.previous, t.next, t.data).Ok?;
      Ok(TransitionOutput(rulesOk && authorized, authorized, t.previous, t.next, 0))
  }

  predicate Accepted(t: Transition) {
    var r := VerifyStateTransition(t);
    r.Ok? && r.value.transitionValid
  }

  predicate IsStateHash(s: string) {
    s != "" && AllHex(s)
  }

  ghost predicate Sound(t: Transition) {
    && IsStateHash(t.previous) && IsStateHash(t.next) && t.previous != t.next && t.data != ""
    && NamesController(t.authorization)
  }

  /** A transition is accepted exactly when it goes between two different non-empty hex hashes, carries
      data, and its authorization names a listed controller and the expected action. */
  lemma AcceptedIff(t: Transition)
    ensures Accepted(t) <==> Sound(t)
  {
    ActionIsPlain();
    ControllerIff(t.authorization, EXPECTED_ACTION);
    AcceptedChecks(t);
    RulesIff(t);
  }

  lemma AcceptedChecks(t: Transition)
    ensures Accepted(t) <==>
      && Authorize(t.authorization, EXPECTED_ACTION).Ok?
      && IsAuthorizedController(Authorize(t.authorization, EXPECTED_ACTION).value.0)
      && ValidateTransitionRules(t.previous, t.next, t.data).Ok?
  {
  }

  lemma RulesIff(t: Transition)
    ensures ValidateTransitionRules(t.previous, t.next, t.data).Ok? <==>
      IsStateHash(t.previous) && IsStateHash(t.next) && t.previous != t.next && t.data != ""
  {
  }

  lemma ControllerNames(identity: string)
    requires IsAuthorizedController(identity)
    ensures identity != "" && ':' !in identity
  {
  }

  lemma ActionIsPlain()
    ensures ':' !in EXPECTED_ACTION
  {
  }

  lemma ControllerIff(authorization: string, action: string)
    requires ':' !in action
    ensures (Authorize(authorization, action).Ok? && IsAuthorizedController(Authorize(authorization, action).value.0))
            <==> Names(authorization, action)
  {
    if Authorize(authorization, action).Ok? {
      var nonce := AuthorizedText(authorization, action);
    }
    forall controller, nonce |
      IsAuthorizedController(controller) && authorization == AuthText(controller, action, nonce)
      ensures Authorize(authorization, action) == Ok((controller, action))
    {
      ControllerNames(controller);
      AuthorizeReads(controller, action, nonce);
    }
  }

  /** The text authorizes the expected action in the name of a listed controller. */
  ghost predicate NamesController(authorization: string) {
    Names(authorization, "device_state_transition")
  }

  ghost predicate Names(authorization: string, action: string) {
    exists controller, nonce ::
      IsAuthorizedController(controller) && authorization == AuthText(controller, action, nonce)
  }

  lemma ControllerIs(identity: string)
    ensures IsAuthorizedController(identity) <==>
      identity in {"admin", "device-manager", "factory-zone-a", "provisioning-service"}
  {
  }

  lemma StateHashIff(s: string)
    ensures IsStateHash(s) <==> s != "" && forall c :: c in s ==> c in "0123456789abcdefABCDEF"
  {
    forall i | 0 <= i < |s| ensures IsHexDigit(s[i]) <==> s[i] in "0123456789abcdefABCDEF" {
      IsHexDigitIff(s[i]);
    }
  }

  /** The whole output: an error exactly when the authorization does not read; otherwise authorized means one of
      the four controllers, valid means also two different non-empty hex hashes and some data, and the hashes
      are given back at time 0. */
  lemma OutputIs(t: Transition)
    ensures var r := VerifyStateTransition(t);
      && (r.Err? <==> Authorize(t.authorization, "device_state_transition").Err?)
      && (r.Err? ==> r.error == Authorize(t.authorization, "device_state_transition").error)
      && (r.Ok? ==>
            && r.value.previous == t.previous && r.value.next == t.next && r.value.timestamp == 0
            && (r.value.authorized <==>
                  Authorize(t.authorization, "device_state_transition").value.0
                  in {"admin", "device-manager", "factory-zone-a", "provisioning-service"})
            && (r.value.transitionValid <==>
                  && r.value.authorized
                  && t.previous != "" && (forall c :: c in t.previous ==> c in "0123456789abcdefABCDEF")
                  && t.next != "" && (forall c :: c in t.next ==> c in "0123456789abcdefABCDEF")
                  && t.previous != t.next && t.data != ""))
  {
    assert EXPECTED_ACTION == "device_state_transition";
    RulesIff(t);
    StateHashIff(t.previous);
    StateHashIff(t.next);
    if VerifyStateTransition(t).Ok? { ControllerIs(Authorize(t.authorization, EXPECTED_ACTION).value.0); }
  }

  /** Accepted transitions, each starting where the one before ended. */
  ghost predicate IsChain(ts: seq<Transition>) {
    && (forall i :: 0 <= i < |ts| ==> Accepted(ts[i]))
    && (forall i :: 0 < i < |ts| ==> ts[i - 1].next == ts[i].previous)
  }

  /** The states a run passes through. */
  function States(ts: seq<Transition>): (hs: seq<string>)
    requires ts != []
    ensures |hs| == |ts| + 1
  {
    [ts[0].previous] + seq(|ts|, i requires 0 <= i < |ts| => ts[i].next)
  }

  /** A run of accepted transitions visits only non-empty hex states, never the same one twice in a row,
      and every step is authorized by a listed controller. */
  lemma ChainStates(ts: seq<Transition>)
    requires ts != [] && IsChain(ts)
    ensures forall i :: 0 <= i < |States(ts)| ==> IsStateHash(States(ts)[i])
    ensures forall i :: 0 < i < |States(ts)| ==> States(ts)[i - 1] != States(ts)[i]
    ensures forall i :: 0 <= i < |ts| ==> NamesController(ts[i].authorization)
  {
    forall i | 0 <= i < |ts| ensures Sound(ts[i]) {
      AcceptedIff(ts[i]);
    }
    SoundStates(ts);
  }

  lemma SoundStates(ts: seq<Transition>)
    requires ts != [] && forall i :: 0 <= i < |ts| ==> Sound(ts[i])
    requires forall i :: 0 < i < |ts| ==> ts[i - 1].next == ts[i].previous
    ensures forall i :: 0 <= i < |States(ts)| ==> IsStateHash(States(ts)[i])
    ensures forall i :: 0 < i < |States(ts)| ==> States(ts)[i - 1] != States(ts)[i]
  {
    var hs := States(ts);
    forall i | 0 <= i < |hs| ensures IsStateHash(hs[i]) && (i > 0 ==> hs[i - 1] != hs[i]) {
      assert Sound(ts[if i == 0 then 0 else i - 1]);
      if i > 0 { assert hs[i] == ts[i - 1].next && hs[i - 1] == ts[i - 1].previous; }
    }
  }
}
