/** Reading and replacing the text of a chat message (message-text.ts): a get/put lens. */
module MessageText {
  import opened JsonValues
  import opened Strings

  /** Parts that carry text: strings, and objects whose `text` is a string. */
  predicate IsTextPart(part: Json) {
    part.Str? || part.Get("text").Str?
  }

  function PartText(part: Json): string {
    if part.Str? then part.s else if part.Get("text").Str? then part.Get("text").s else ""
  }

  /** `part` with its text exchanged; a part without text stays as it is. */
  function WithText(part: Json, text: string): (r: Json)
    ensures IsTextPart(r) <==> IsTextPart(part)
    ensures IsTextPart(part) ==> PartText(r) == text
    ensures !IsTextPart(part) ==> r == part
  {
    if part.Str? then Str(text)
    else if IsTextPart(part) then Obj(part.fields["text" := Str(text)])
    else part
  }

  lemma WithTextTwice(part: Json, first: string, second: string)
    ensures WithText(WithText(part, first), second) == WithText(part, second)
    ensures IsTextPart(part) ==> WithText(part, PartText(part)) == part
  {
    if !part.Str? && IsTextPart(part) {
      assert part.fields["text" := part.fields["text"]] == part.fields;
      assert part.fields["text" := Str(first)]["text" := Str(second)] == part.fields["text" := Str(second)];
    }
  }

  function Concat(parts: seq<Json>): string {
    if |parts| == 0 then "" else Concat(parts[..|parts| - 1]) + PartText(parts[|parts| - 1])
  }

  function ExtractText(message: Json): string {
    var content := message.Get("content");
    if content.Str? then content.s else if content.Arr? then Concat(content.items) else ""
  }

  method ExtractAgentMessageText(message: Json) returns (text: string)
    ensures text == ExtractText(message)
  {
    if !message.IsObject() {
      return "";
    }
    var content := message.Get("content");
    if content.Str? {
      return content.s;
    }
    if !content.Arr? {
      return "";
    }
    var parts := content.items;
    text := "";
    for i := 0 to |parts|
      invariant text == Concat(parts[..i])
    {
      assert parts[..i + 1][..i] == parts[..i];
      if parts[i].Str? {
        text := text + parts[i].s;
        continue;
      }
      if parts[i].IsObject() {
        var t := parts[i].Get("text");
        if t.Str? {
          text := text + t.s;
        }
      }
    }
    assert parts[..|parts|] == parts;
  }

  /** Position of the first text part, or the number of parts. */
  function FirstText(parts: seq<Json>): (k: nat)
    ensures k <= |parts|
    ensures k < |parts| ==> IsTextPart(parts[k])
    ensures forall i | 0 <= i < k :: !IsTextPart(parts[i])
  {
    if |parts| == 0 then 0
    else if IsTextPart(parts[0]) then 0
    else
      var k := FirstText(parts[1..]);
      assert forall i | 0 <= i < k :: parts[1..][i] == parts[i + 1];
      k + 1
  }

  /** The whole text goes to the first text part and every other text part is emptied. */
  function ReplaceParts(parts: seq<Json>, text: string): (next: seq<Json>)
    ensures |next| == |parts|
    ensures forall i | 0 <= i < |parts| :: next[i] == WithText(parts[i], if i == FirstText(parts) then text else "")
  {
    seq(|parts|, i requires 0 <= i < |parts| => WithText(parts[i], if i == FirstText(parts) then text else ""))
  }

  function TextPart(text: string): Json {
    Obj(map["type" := Str("text"), "text" := Str(text)])
  }

  function NewContent(content: Json, text: string): Json {
    if !content.Arr? then Str(text)
    else if FirstText(content.items) == |content.items| then Arr([TextPart(text)] + content.items)
    else Arr(ReplaceParts(content.items, text))
  }

  function ApplyContent(message: Json, text: string): Json {
    if !message.IsObject() then message
    else Obj(Spread(message)["content" := NewContent(message.Get("content"), text)])
  }

  /** The `content.map` closure with its shared `replaced` flag. */
  method MapParts(parts: seq<Json>, newText: string) returns (next: seq<Json>, replaced: bool)
    ensures next == ReplaceParts(parts, newText)
    ensures replaced <==> FirstText(parts) < |parts|
  {
    replaced := false;
    next := [];
    for i := 0 to |parts|
      invariant |next| == i
      invariant replaced <==> FirstText(parts) < i
      invariant forall j | 0 <= j < i :: next[j] == WithText(parts[j], if j == FirstText(parts) then newText else "")
    {
      FirstTextAt(parts, i);
      var part := parts[i];
      if part.Str? {
        next := next + [Str(if replaced then "" else newText)];
        replaced := true;
      } else if part.IsObject() && part.Get("text").Str? {
        next := next + [Obj(part.fields["text" := Str(if replaced then "" else newText)])];
        replaced := true;
      } else {
        next := next + [part];
      }
    }
  }

  method ApplyAgentMessageContent(message: Json, newText: string) returns (r: Json)
    ensures r == ApplyContent(message, newText)
  {
    if !message.IsObject() {
      return message;
    }
    var m := Spread(message);
    var content := message.Get("content");
    if content.Str? {
      return Obj(m["content" := Str(newText)]);
    }
    if content.Arr? {
      var next, replaced := MapParts(content.items, newText);
      if |next| == 0 {
        assert [TextPart(newText)] + content.items == [TextPart(newText)];
        return Obj(m["content" := Arr([TextPart(newText)])]);
      }
      if !replaced {
        assert next == content.items;
        return Obj(m["content" := Arr([TextPart(newText)] + next)]);
      }
      return Obj(m["content" := Arr(next)]);
    }
    r := Obj(m["content" := Str(newText)]);
  }

  lemma FirstTextAt(parts: seq<Json>, i: nat)
    requires i < |parts|
    ensures FirstText(parts) < i || (FirstText(parts) == i <==> IsTextPart(parts[i]))
  {
  }

  // ---- Lens laws ----

  lemma {:induction false} ConcatOfOne(parts: seq<Json>, k: nat)
    requires k < |parts| && forall i | 0 <= i < |parts| && i != k :: PartText(parts[i]) == ""
    ensures Concat(parts) == PartText(parts[k])
  {
    if k == |parts| - 1 {
      ConcatOfNone(parts[..k]);
    } else {
      ConcatOfOne(parts[..|parts| - 1], k);
    }
  }

  lemma {:induction false} ConcatOfNone(parts: seq<Json>)
    requires forall i | 0 <= i < |parts| :: PartText(parts[i]) == ""
    ensures Concat(parts) == ""
  {
    if |parts| > 0 {
      ConcatOfNone(parts[..|parts| - 1]);
    }
  }

  lemma ConcatOfReplaced(parts: seq<Json>, text: string)
    requires FirstText(parts) < |parts|
    ensures Concat(ReplaceParts(parts, text)) == text
  {
    ConcatOfOne(ReplaceParts(parts, text), FirstText(parts));
  }

  lemma ConcatOfPrepended(head: Json, parts: seq<Json>)
    requires forall i | 0 <= i < |parts| :: !IsTextPart(parts[i])
    ensures Concat([head] + parts) == PartText(head)
  {
    var all := [head] + parts;
    forall i | 0 < i < |all|
      ensures PartText(all[i]) == ""
    {
      assert all[i] == parts[i - 1];
    }
    ConcatOfOne(all, 0);
  }

  /** Put-get: whatever the content was, the text read back is the text put in. */
  lemma ExtractAfterApply(message: Json, text: string)
    requires message.IsObject()
    ensures ExtractText(ApplyContent(message, text)) == text
  {
    if message.Get("content").Arr? {
      var parts := message.Get("content").items;
      if FirstText(parts) < |parts| {
        ConcatOfReplaced(parts, text);
      } else {
        ConcatOfPrepended(TextPart(text), parts);
      }
    }
  }

  lemma SameTextPositions(before: seq<Json>, after: seq<Json>)
    requires |before| == |after|
    requires forall i | 0 <= i < |before| :: IsTextPart(after[i]) <==> IsTextPart(before[i])
    ensures FirstText(after) == FirstText(before)
  {
  }

  lemma ReplacedTwice(parts: seq<Json>, first: string, second: string)
    ensures ReplaceParts(ReplaceParts(parts, first), second) == ReplaceParts(parts, second)
    ensures FirstText(ReplaceParts(parts, first)) == FirstText(parts)
  {
    var once := ReplaceParts(parts, first);
    SameTextPositions(parts, once);
    var k := FirstText(parts);
    forall i | 0 <= i < |parts|
      ensures ReplaceParts(once, second)[i] == ReplaceParts(parts, second)[i]
    {
      WithTextTwice(parts[i], if i == k then first else "", if i == k then second else "");
    }
  }

  lemma TextPartReplaced(first: string, second: string)
    ensures IsTextPart(TextPart(first)) && PartText(TextPart(first)) == first
    ensures WithText(TextPart(first), second) == TextPart(second)
  {
    assert TextPart(first).fields["text" := Str(second)] == TextPart(second).fields;
  }

  lemma PrependedTwice(head: Json, parts: seq<Json>, text: string)
    requires IsTextPart(head) && forall i | 0 <= i < |parts| :: !IsTextPart(parts[i])
    ensures FirstText([head] + parts) == 0
    ensures ReplaceParts([head] + parts, text) == [WithText(head, text)] + parts
  {
    var next := [head] + parts;
    assert FirstText(next) == 0;
    var replaced := ReplaceParts(next, text);
    forall i | 0 <= i < |next|
      ensures replaced[i] == ([WithText(head, text)] + parts)[i]
    {
      if i > 0 {
        assert next[i] == parts[i - 1];
      }
    }
  }

  /** Replacing the content twice is replacing it once. */
  lemma NewContentTwice(content: Json, first: string, second: string)
    ensures NewContent(NewContent(content, first), second) == NewContent(content, second)
  {
    if content.Arr? {
      if FirstText(content.items) == |content.items| {
        TextPartReplaced(first, second);
        PrependedTwice(TextPart(first), content.items, second);
      } else {
        ReplacedTwice(content.items, first, second);
      }
    }
  }

  /** Put-put: only the last text put in counts. */
  lemma ApplyTwice(message: Json, first: string, second: string)
    ensures ApplyContent(ApplyContent(message, first), second) == ApplyContent(message, second)
  {
    if message.IsObject() {
      var content := message.Get("content");
      NewContentTwice(content, first, second);
      var m := Spread(message);
      assert m["content" := NewContent(content, first)]["content" := NewContent(content, second)]
          == m["content" := NewContent(content, second)];
    }
  }

  /** The parts that carry no text. */
  function OtherParts(parts: seq<Json>): seq<Json> {
    if |parts| == 0 then []
    else
      var init := OtherParts(parts[..|parts| - 1]);
      if IsTextPart(parts[|parts| - 1]) then init else init + [parts[|parts| - 1]]
  }

  lemma {:induction false} SameOtherParts(before: seq<Json>, after: seq<Json>)
    requires |before| == |after|
    requires forall i | 0 <= i < |before| :: IsTextPart(after[i]) <==> IsTextPart(before[i])
    requires forall i | 0 <= i < |before| && !IsTextPart(before[i]) :: after[i] == before[i]
    ensures OtherParts(after) == OtherParts(before)
  {
    if |before| > 0 {
      SameOtherParts(before[..|before| - 1], after[..|after| - 1]);
    }
  }

  lemma {:induction false} OtherPartsAfterText(head: Json, parts: seq<Json>)
    requires IsTextPart(head)
    ensures OtherParts([head] + parts) == OtherParts(parts)
  {
    var all := [head] + parts;
    if |parts| == 0 {
      assert all[..0] == [];
    } else {
      OtherPartsAfterText(head, parts[..|parts| - 1]);
      assert all[..|all| - 1] == [head] + parts[..|parts| - 1];
    }
  }

  /** Replacing the text keeps every part without text, in order, and every other field of the message. */
  lemma ApplyKeepsTheRest(message: Json, text: string)
    requires message.IsObject()
    ensures var content := message.Get("content");
            content.Arr? ==>
              var after := ApplyContent(message, text).Get("content");
              after.Arr? && OtherParts(after.items) == OtherParts(content.items)
    ensures forall name | name != "content" ::
              name in Spread(message) <==> name in Spread(ApplyContent(message, text))
    ensures forall name | name != "content" && name in Spread(message) ::
              Spread(ApplyContent(message, text))[name] == Spread(message)[name]
  {
    var content := message.Get("content");
    if content.Arr? {
      var parts := content.items;
      if FirstText(parts) == |parts| {
        OtherPartsAfterText(TextPart(text), parts);
      } else {
        SameOtherParts(parts, ReplaceParts(parts, text));
      }
    }
  }

  /** Get-put: writing back the text just read changes nothing exactly when the content is a string, or a list
      whose first text part already holds all the text. */
  lemma ApplyExtractedIsIdentityIff(message: Json)
    requires message.IsObject()
    ensures ApplyContent(message, ExtractText(message)) == message <==>
            var content := message.Get("content");
            || content.Str?
            || (content.Arr? && FirstText(content.items) < |content.items| &&
                forall i | FirstText(content.items) < i < |content.items| :: PartText(content.items[i]) == "")
  {
    var content, text := message.Get("content"), ExtractText(message);
    var r := ApplyContent(message, text);
    assert r == message <==>
           (message.Obj? && "content" in message.fields && NewContent(content, text) == content) by {
      if message.Obj? && "content" in message.fields && NewContent(content, text) == content {
        assert message.fields["content" := content] == message.fields;
      }
    }
    if content.Arr? && FirstText(content.items) < |content.items| {
      var parts, k := content.items, FirstText(content.items);
      var next := ReplaceParts(parts, text);
      if forall i | k < i < |parts| :: PartText(parts[i]) == "" {
        ConcatOfOne(parts, k);
        forall i | 0 <= i < |parts|
          ensures next[i] == parts[i]
        {
          WithTextTwice(parts[i], text, text);
        }
        assert next == parts;
      } else {
        var i :| k < i < |parts| && PartText(parts[i]) != "";
        assert PartText(next[i]) == "";
      }
    }
  }

  // ---- What the text of a message is ----

  function WithItems(items: seq<Json>): Json { Obj(map["content" := Arr(items)]) }

  lemma {:induction false} ConcatConcat(a: seq<Json>, b: seq<Json>)
    ensures Concat(a + b) == Concat(a) + Concat(b)
  {
    if |b| == 0 {
      assert a + b == a;
    } else {
      var init, last := b[..|b| - 1], b[|b| - 1];
      ConcatConcat(a, init);
      assert b == init + [last] && a + b == (a + init) + [last];
      ConcatSnoc(init, last);
      ConcatSnoc(a + init, last);
      AppendAssociates(Concat(a), Concat(init), PartText(last));
    }
  }

  lemma ConcatSnoc(parts: seq<Json>, last: Json)
    ensures Concat(parts + [last]) == Concat(parts) + PartText(last)
  {
    assert (parts + [last])[..|parts|] == parts;
  }

  lemma ConcatOfSingle(part: Json)
    ensures Concat([part]) == PartText(part)
  {
    ConcatOfOne([part], 0);
  }

  /** The text of a content list is that of its parts one after the other: of a string the string, of an object its
      `text` if that is a string, and of anything else nothing. */
  lemma TextOfParts(a: seq<Json>, b: seq<Json>, part: Json)
    ensures ExtractText(WithItems(a + b)) == ExtractText(WithItems(a)) + ExtractText(WithItems(b))
    ensures ExtractText(WithItems([part])) ==
            if part.Str? then part.s
            else if part.Obj? && "text" in part.fields && part.fields["text"].Str? then part.fields["text"].s
            else ""
    ensures ExtractText(WithItems([])) == ""
  {
    ConcatConcat(a, b);
    ConcatOfSingle(part);
  }

  lemma TextDependsOnContent(message: Json)
    ensures match message.Get("content")
            case Str(s) => ExtractText(message) == s
            case Arr(items) => ExtractText(message) == ExtractText(WithItems(items))
            case _ => ExtractText(message) == ""
  {
    if message.Get("content").Arr? {
      assert WithItems(message.Get("content").items).Get("content") == message.Get("content");
    }
  }

  predicate CarriesText(part: Json) {
    part.Str? || (part.Obj? && "text" in part.fields && part.fields["text"].Str?)
  }

  /** The new text stands whole in the first part that carries one, the later ones are emptied, and with no such part
      it is put in front as a part of its own. */
  lemma NewTextStandsFirst(items: seq<Json>, text: string, i: nat)
    requires i <= |items| && forall j | 0 <= j < i :: !CarriesText(items[j])
    requires i < |items| ==> CarriesText(items[i])
    ensures var content := ApplyContent(WithItems(items), text).Get("content");
            && content.Arr?
            && if i == |items| then content.items == [Obj(map["type" := Str("text"), "text" := Str(text)])] + items
               else
                 && |content.items| == |items| && content.items[..i] == items[..i]
                 && ExtractText(WithItems([content.items[i]])) == text
                 && forall j | i < j < |items| :: ExtractText(WithItems([content.items[j]])) == ""
  {
    assert FirstText(items) == i;
    var content := ApplyContent(WithItems(items), text).Get("content");
    if i < |items| {
      forall j | i <= j < |items|
        ensures ExtractText(WithItems([content.items[j]])) == if j == i then text else ""
      {
        TextOfParts([], [], content.items[j]);
        assert PartText(content.items[j]) == "" || IsTextPart(items[j]);
      }
    }
  }
}
