/** `extract_assistant_text`: pulling the assistant's text out of whatever
    the interpreter returned. */
module Responses {
  import opened Options
  import opened Text

  /** A loosely typed Python value as the interpreter may return it. */
  datatype Json =
    | Null
    | Bool(b: bool)
    | Num(n: int)
    | Str(s: string)
    | Arr(items: seq<Json>)
    | Obj(fields: map<string, Json>)

  /** Python truthiness. */
  predicate Truthy(j: Json) {
    match j
    case Null => false
    case Bool(b) => b
    case Num(n) => n != 0
    case Str(s) => s != ""
    case Arr(items) => items != []
    case Obj(fields) => fields != map[]
  }

  /** `d.get(key)`: None when the key is absent. */
  function Get(fields: map<string, Json>, key: string): Json {
    if key in fields then fields[key] else Null
  }

  /** `role in ("assistant", "bot")`. */
  predicate IsAssistantRole(role: Json) {
    role == Str("assistant") || role == Str("bot")
  }

  /** `m.get("content") or m.get("text") or ""`. */
  function MessageText(fields: map<string, Json>): Json {
    if Truthy(Get(fields, "content")) then fields["content"]
    else if Truthy(Get(fields, "text")) then fields["text"]
    else Str("")
  }

  /** What one list element adds to `parts`: its text, when it is a dict
      with an assistant or bot role and a truthy text. */
  function PartOf(m: Json): seq<Json> {
    if m.Obj? && IsAssistantRole(Get(m.fields, "role")) && Truthy(MessageText(m.fields))
    then [MessageText(m.fields)]
    else []
  }

  /** The `parts` list built from a message list, in list order. */
  function AssistantParts(msgs: seq<Json>): (parts: seq<Json>)
    ensures forall k :: 0 <= k < |parts| ==> Truthy(parts[k])
  {
    if msgs == [] then [] else AssistantParts(msgs[..|msgs| - 1]) + PartOf(msgs[|msgs| - 1])
  }

  /** `resp.get("messages") or resp.get("output", {}).get("messages", [])`;
      None when that raises, i.e. when "output" holds something other than a
      dict. */
  function MessageList(fields: map<string, Json>): Option<Json> {
    if Truthy(Get(fields, "messages")) then Some(fields["messages"])
    else if "output" !in fields then Some(Arr([]))
    else match fields["output"]
      case Obj(out) => Some(if "messages" in out then out["messages"] else Arr([]))
      case _ => None
  }

  predicate AllStrings(parts: seq<Json>) {
    forall k :: 0 <= k < |parts| ==> parts[k].Str?
  }

  function Texts(parts: seq<Json>): (ts: seq<string>)
    requires AllStrings(parts)
    ensures |ts| == |parts| && forall k :: 0 <= k < |parts| ==> Str(ts[k]) == parts[k]
  {
    seq(|parts|, k requires 0 <= k < |parts| => parts[k].s)
  }

  /** `"\n".join(parts)`; None when it raises because a part is not a string. */
  function JoinParts(parts: seq<Json>): Option<string> {
    if AllStrings(parts) then Some(Join("\n", Texts(parts))) else None
  }

  /** The message list, when it is a non-empty list, else nothing. */
  function ListedMessages(fields: map<string, Json>): seq<Json> {
    match MessageList(fields)
    case Some(Arr(items)) => items
    case _ => []
  }

  /** `extract_assistant_text(resp)`. Some(v) is the value returned; None
      means the function raised, which the session loop catches. */
  function Extract(resp: Json): Option<Json> {
    match resp
    case Obj(fields) =>
      if Truthy(Get(fields, "content")) then Some(Get(fields, "content"))
      else if MessageList(fields).None? then None
      else
        var parts := AssistantParts(ListedMessages(fields));
        if parts != [] then
          match JoinParts(parts)
          case Some(text) => Some(Str(text))
          case None => None
        else if IsAssistantRole(Get(fields, "role")) && Truthy(Get(fields, "content")) then Some(Get(fields, "content"))
        else Some(Str(""))
    case _ => Some(Str(""))
  }

  /** The extraction produced something the session loop will show. */
  predicate Usable(r: Option<Json>) {
    r.Some? && Truthy(r.value)
  }

  /** The message list holds assistant or bot text that joins cleanly. */
  predicate HasAssistantText(fields: map<string, Json>) {
    var parts := AssistantParts(ListedMessages(fields));
    parts != [] && AllStrings(parts)
  }

  // ---------------------------------------------------------------------
  // Properties
  // ---------------------------------------------------------------------

  /** A truthy top-level `content` wins over everything else. */
  lemma ContentFirst(fields: map<string, Json>)
    requires Truthy(Get(fields, "content"))
    ensures Extract(Obj(fields)) == Some(fields["content"])
  {}

  /** Without a truthy `content`, the assistant and bot texts of the message
      list are returned, joined with newlines, in list order. */
  lemma MessagesJoined(fields: map<string, Json>)
    requires !Truthy(Get(fields, "content")) && HasAssistantText(fields)
    ensures var parts := AssistantParts(ListedMessages(fields));
      Extract(Obj(fields)) == Some(Str(Join("\n", Texts(parts))))
  {}

  /** Every assistant or bot text appears in the joined reply. */
  lemma JoinedReplyHasEveryPart(fields: map<string, Json>, k: nat)
    requires !Truthy(Get(fields, "content")) && HasAssistantText(fields)
    requires k < |AssistantParts(ListedMessages(fields))|
    ensures var parts := AssistantParts(ListedMessages(fields));
      Contains(Extract(Obj(fields)).value.s, parts[k].s)
  {
    var parts := AssistantParts(ListedMessages(fields));
    JoinContainsParts("\n", Texts(parts), k);
  }

  /** Anything but a dict yields "". */
  lemma NonDictIsEmpty(resp: Json)
    requires !resp.Obj?
    ensures Extract(resp) == Some(Str(""))
  {}

  /** A single role-tagged dict `{role: assistant|bot, content: ...}` with a
      truthy content is answered by the first rule already: the later
      role-tagged rule can never be the one that decides. */
  lemma RoleTaggedDictTakenByContentRule(fields: map<string, Json>)
    requires IsAssistantRole(Get(fields, "role")) && Truthy(Get(fields, "content"))
    ensures Extract(Obj(fields)) == Some(fields["content"])
  {}

  /** The extraction gives the session loop something to show exactly when the
      response is a dict with a truthy `content` or with assistant or bot text
      in its message list. The role-tagged rule adds nothing. */
  lemma {:induction false} UsableIff(resp: Json)
    ensures Usable(Extract(resp)) <==>
      resp.Obj? && (Truthy(Get(resp.fields, "content")) || HasAssistantText(resp.fields))
  {
    if resp.Obj? && !Truthy(Get(resp.fields, "content")) && HasAssistantText(resp.fields) {
      var parts := AssistantParts(ListedMessages(resp.fields));
      var ts := Texts(parts);
      assert ts[0] != "" by { assert Truthy(parts[0]); }
      JoinNonEmpty("\n", ts);
    }
  }

  // ---------------------------------------------------------------------
  // The function itself, loop and all
  // ---------------------------------------------------------------------

  /** `extract_assistant_text` as the source runs it: the message list is
      filtered into `parts` one element at a time. */
  method ExtractAssistantText(resp: Json) returns (r: Option<Json>)
    ensures r == Extract(resp)
  {
    if !resp.Obj? {
      return Some(Str(""));
    }
    var fields := resp.fields;
    if Truthy(Get(fields, "content")) {
      return Some(Get(fields, "content"));
    }
    var msgs := MessageList(fields);
    if msgs.None? {
      return None;
    }
    if msgs.value.Arr? && msgs.value.items != [] {
      var items := msgs.value.items;
      var parts: seq<Json> := [];
      var i := 0;
      while i < |items|
        invariant 0 <= i <= |items|
        invariant parts == AssistantParts(items[..i])
      {
        var m := items[i];
        if m.Obj? && IsAssistantRole(Get(m.fields, "role")) {
          var txt := MessageText(m.fields);
          if Truthy(txt) {
            parts := parts + [txt];
          }
        }
        assert items[..i + 1][..i] == items[..i];
        i := i + 1;
      }
      assert items[..i] == items;
      if parts != [] {
        var joined := JoinParts(parts);
        return if joined.Some? then Some(Str(joined.value)) else None;
      }
    }
    if IsAssistantRole(Get(fields, "role")) && Truthy(Get(fields, "content")) {
      return Some(Get(fields, "content"));
    }
    return Some(Str(""));
  }
}
