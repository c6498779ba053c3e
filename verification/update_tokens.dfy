/** The `field=value` tokens of `update_event` and the rule that merges
    them into the stored record. A token is split on `=`: the text before
    the first `=` names the field and the text between the first and the
    second `=` is the value; anything after a second `=` is ignored. */
module UpdateTokens {
  import opened Wrappers
  import opened Text
  import opened Dates
  import opened Validators
  import opened Events

  /** The values gathered from the tokens, before merging; None for a
      field no token mentioned. A name or contact may be the empty text. */
  datatype Patch = Patch(name: Option<string>, date: Option<Date>, time: Option<string>, contact: Option<string>)

  const NoChanges := Patch(None, None, None, None)

  function TokenKey(tok: string): string {
    TakeUntil(tok, '=')
  }

  function TokenValue(tok: string): string {
    TakeUntil(DropThrough(tok, '='), '=')
  }

  /** A token `k=v` with no `=` in `k` or `v` names field `k` with value `v`. */
  lemma TokenParts(k: string, v: string)
    requires '=' !in k && '=' !in v
    ensures TokenKey(k + "=" + v) == k && TokenValue(k + "=" + v) == v
  {
    var s := k + "=" + v;
    var r := TakeUntil(s, '=');
    assert s[|k|] == '=';
    assert forall i :: 0 <= i < |k| ==> s[i] == k[i];
    assert s[..|k|] == k;
    assert r == k;
    assert '=' in s by { assert s[|k|] == '='; }
    var rest := DropThrough(s, '=');
    assert s == k + "=" + rest;
    assert rest == s[|k| + 1..] == v;
    assert TakeUntil(v, '=') == v by {
      var q := TakeUntil(v, '=');
      assert |q| == |v|;
    }
  }

  predicate KnownField(key: string) {
    key == "name" || key == "date" || key == "time" || key == "contact"
  }

  /** A token the update accepts: it holds `=`, names one of the four
      fields, and a date or time value validates. */
  predicate WellFormedToken(tok: string) {
    && '=' in tok
    && KnownField(TokenKey(tok))
    && (TokenKey(tok) == "date" ==> ValidateDate(TokenValue(tok)).Some?)
    && (TokenKey(tok) == "time" ==> ValidateTime(TokenValue(tok)).Some?)
  }

  predicate AllWellFormed(tokens: seq<string>) {
    forall i :: 0 <= i < |tokens| ==> WellFormedToken(tokens[i])
  }

  /** One pass of the token loop: `split('=')`, refuse a token with no
      `=`, then record the value of the named field. */
  function ApplyToken(p: Patch, tok: string): (r: Result<Patch, Error>)
    ensures r.Success? <==> WellFormedToken(tok)
    ensures '=' !in tok ==> r == Failure(Usage)
    ensures '=' in tok && !KnownField(TokenKey(tok)) ==> r == Failure(Usage)
    ensures r.Failure? ==> r.error in {Usage, BadDate, BadTime}
    ensures '=' in tok && TokenKey(tok) == "date" && ValidateDate(TokenValue(tok)).None? ==> r == Failure(BadDate)
    ensures '=' in tok && TokenKey(tok) == "time" && ValidateTime(TokenValue(tok)).None? ==> r == Failure(BadTime)
    ensures r.Success? && TokenKey(tok) == "name" ==> r.value == p.(name := Some(TokenValue(tok)))
    ensures r.Success? && TokenKey(tok) == "date" ==> r.value == p.(date := ValidateDate(TokenValue(tok)))
    ensures r.Success? && TokenKey(tok) == "time" ==> r.value == p.(time := ValidateTime(TokenValue(tok)))
    ensures r.Success? && TokenKey(tok) == "contact" ==> r.value == p.(contact := Some(TokenValue(tok)))
  {
    SplitFields(tok, '=');
    SplitFields(DropThrough(tok, '='), '=');
    var parts := Split(tok, '=');
    if |parts| == 1 then Failure(Usage)
    else
      assert parts[1] == Split(DropThrough(tok, '='), '=')[0];
      var field, val := parts[0], parts[1];
      if field == "name" then Success(p.(name := Some(val)))
      else if field == "date" then
        match ValidateDate(val)
        case None => Failure(BadDate)
        case Some(d) => Success(p.(date := Some(d)))
      else if field == "time" then
        match ValidateTime(val)
        case None => Failure(BadTime)
        case Some(t) => Success(p.(time := Some(t)))
      else if field == "contact" then Success(p.(contact := Some(val)))
      else Failure(Usage)
  }

  /** The token loop: tokens are applied in order and the first bad one
      rejects the whole update. */
  function CollectPatch(p: Patch, tokens: seq<string>): (r: Result<Patch, Error>)
    decreases |tokens|
  {
    if |tokens| == 0 then Success(p)
    else
      match ApplyToken(p, tokens[0])
      case Failure(e) => Failure(e)
      case Success(q) => CollectPatch(q, tokens[1..])
  }

  /** The value of the last token naming field `key`, read from the end. */
  function LastValue(tokens: seq<string>, key: string): Option<string>
    decreases |tokens|
  {
    if |tokens| == 0 then None
    else
      var t := tokens[|tokens| - 1];
      if '=' in t && TokenKey(t) == key then Some(TokenValue(t))
      else LastValue(tokens[..|tokens| - 1], key)
  }

  /** What an update leaves in a text field: the last value supplied for
      it, unless that value is empty, in which case the stored text. */
  function UpdatedText(tokens: seq<string>, key: string, current: string): string {
    match LastValue(tokens, key)
    case Some(v) => if v != "" then v else current
    case None => current
  }

  function UpdatedDate(tokens: seq<string>, current: Date): Date {
    match LastValue(tokens, "date")
    case Some(v) => (match ValidateDate(v) case Some(d) => d case None => current)
    case None => current
  }

  function UpdatedTime(tokens: seq<string>, current: string): string {
    match LastValue(tokens, "time")
    case Some(v) => (match ValidateTime(v) case Some(t) => t case None => current)
    case None => current
  }

  /** The record an update with these tokens is meant to produce. */
  function Expected(e: Event, tokens: seq<string>): Event {
    Event(
      UpdatedText(tokens, "name", e.name),
      UpdatedDate(tokens, e.date),
      UpdatedTime(tokens, e.time),
      UpdatedText(tokens, "contact", e.contact))
  }

  /** The fallbacks of `update_event`: a field left None, or set to the
      empty text, keeps the stored value. */
  function Merge(e: Event, p: Patch): Event {
    Event(
      if p.name.Some? && p.name.value != "" then p.name.value else e.name,
      if p.date.Some? then p.date.value else e.date,
      if p.time.Some? && p.time.value != "" then p.time.value else e.time,
      if p.contact.Some? && p.contact.value != "" then p.contact.value else e.contact)
  }

  lemma {:induction false} LastValueCons(t: string, rest: seq<string>, key: string)
    ensures LastValue([t] + rest, key) ==
      if LastValue(rest, key).Some? then LastValue(rest, key)
      else if '=' in t && TokenKey(t) == key then Some(TokenValue(t))
      else None
    decreases |rest|
  {
    var s := [t] + rest;
    if |rest| == 0 {
      assert s[..0] == [];
    } else {
      assert s[|s| - 1] == rest[|rest| - 1];
      assert s[..|s| - 1] == [t] + rest[..|rest| - 1];
      LastValueCons(t, rest[..|rest| - 1], key);
    }
  }

  /** The token loop accepts exactly the lists of well-formed tokens, and
      then each field holds the value of the LAST token naming it; fields
      no token names keep what the patch held before. */
  lemma {:induction false} CollectPatchSpec(p: Patch, tokens: seq<string>)
    ensures CollectPatch(p, tokens).Success? <==> AllWellFormed(tokens)
    ensures CollectPatch(p, tokens).Success? ==>
      var q := CollectPatch(p, tokens).value;
      && q.name == (if LastValue(tokens, "name").Some? then LastValue(tokens, "name") else p.name)
      && q.contact == (if LastValue(tokens, "contact").Some? then LastValue(tokens, "contact") else p.contact)
      && q.date == (if LastValue(tokens, "date").Some? then ValidateDate(LastValue(tokens, "date").value) else p.date)
      && q.time == (if LastValue(tokens, "time").Some? then ValidateTime(LastValue(tokens, "time").value) else p.time)
    decreases |tokens|
  {
    if |tokens| > 0 {
      var t, rest := tokens[0], tokens[1..];
      assert tokens == [t] + rest;
      var step := ApplyToken(p, t);
      assert CollectPatch(p, tokens) == if step.Failure? then Failure(step.error) else CollectPatch(step.value, rest);
      if step.Success? {
        var q := step.value;
        CollectPatchSpec(q, rest);
        assert AllWellFormed(tokens) <==> WellFormedToken(t) && AllWellFormed(rest) by {
          assert forall i :: 0 < i < |tokens| ==> tokens[i] == rest[i - 1];
        }
        LastValueCons(t, rest, "name");
        LastValueCons(t, rest, "contact");
        LastValueCons(t, rest, "date");
        LastValueCons(t, rest, "time");
      }
    }
  }

  /** A refused token is refused with the same error whatever the patch
      gathered before it. */
  lemma ApplyTokenErrorFrame(p: Patch, tok: string)
    requires !WellFormedToken(tok)
    ensures ApplyToken(p, tok) == ApplyToken(NoChanges, tok)
  {
  }

  /** The token loop stops at the first bad token and reports that
      token's error. */
  lemma {:induction false} CollectPatchFirstError(p: Patch, tokens: seq<string>, k: nat)
    requires k < |tokens| && AllWellFormed(tokens[..k]) && !WellFormedToken(tokens[k])
    ensures CollectPatch(p, tokens) == Failure(ApplyToken(NoChanges, tokens[k]).error)
    decreases k
  {
    var t := tokens[0];
    if k == 0 {
      ApplyTokenErrorFrame(p, t);
    } else {
      assert tokens[..k][0] == t;
      assert WellFormedToken(t);
      var q := ApplyToken(p, t).value;
      var rest := tokens[1..];
      assert rest[..k - 1] == tokens[..k][1..];
      assert AllWellFormed(rest[..k - 1]) by {
        forall i | 0 <= i < k - 1
          ensures WellFormedToken(rest[i])
        {
          assert rest[i] == tokens[..k][i + 1];
        }
      }
      assert rest[k - 1] == tokens[k];
      CollectPatchFirstError(q, rest, k - 1);
    }
  }

  /** The merge rule of `update_event`: a successful token list turns the
      stored record into `Expected`, field by field. */
  lemma MergeTokens(e: Event, tokens: seq<string>)
    requires AllWellFormed(tokens)
    ensures CollectPatch(NoChanges, tokens).Success?
    ensures Merge(e, CollectPatch(NoChanges, tokens).value) == Expected(e, tokens)
  {
    CollectPatchSpec(NoChanges, tokens);
  }
}
