/** `LineEventHandler`: the reply chosen for a text or image message event.

    The outbound `reply_message` call is not performed; each handler returns
    the call it would make, as a `ReplyCall` value naming the client it goes
    through, the event's reply token and the message.  The handler itself is
    an immutable value, so handling an event cannot change its stored client
    or template. */
module Handlers {
  import opened Wrappers
  import Json
  import Strings

  /** The selection keywords a user can answer with, in menu order. */
  const Keywords: seq<string> := ["削除候補", "非表示", "残す"]

  /** The reply to any text that is not a keyword: a request for a
      screenshot of the chat. */
  const ScreenshotPrompt: string := "LINEトークのスクリーンショットを送っていただくと、整理方法をアドバイスします。"

  /** The text around the keyword in an acknowledgement. */
  const AckOpen: string := "「"
  const AckClose: string := "」を選択しました。お役に立てて良かったです！"

  /** The first line of the fallback menu. */
  const MenuHeader: string := "スクリーンショットを確認しました。どうしますか？"

  /** The bullet that starts each option line of the fallback menu. */
  const Bullet: char := '・'

  /** The acknowledgement of a selected keyword. */
  function Acknowledgement(keyword: string): (reply: string) {
    AckOpen + keyword + AckClose
  }

  /** The fallback menu: the header, then one bulleted line per keyword. */
  function MenuLines(): (lines: seq<string>)
    ensures |lines| == |Keywords| + 1
  {
    [MenuHeader] + seq(|Keywords|, i requires 0 <= i < |Keywords| => [Bullet] + Keywords[i])
  }

  /** The text sent for an image when no template is loaded. */
  function FallbackMenu(): (menu: string) {
    Strings.Join(MenuLines(), '\n')
  }

  /** The LINE API client the handler replies through (its access token). */
  datatype Client = Client(accessToken: string)

  /** `LineEventHandler`: the client and the template given to `__init__`. */
  datatype Handler = Handler(client: Client, template: Json.Value)

  /** The message an event carries. */
  datatype MessageContent = TextMessage(text: string) | ImageMessage | OtherMessage(kind: string)

  /** A message event: its one-time reply token and its message. */
  datatype Event = MessageEvent(replyToken: string, message: MessageContent)

  /** An outgoing message: `TextSendMessage` or `FlexSendMessage`. */
  datatype SendMessage = TextSend(text: string) | FlexSend(altText: Json.Value, contents: Json.Value)

  /** One `reply_message` call: the client used, the token and the message. */
  datatype ReplyCall = ReplyCall(client: Client, replyToken: string, message: SendMessage)

  /** The exceptions reading the template can raise: a `dict` without the
      key, or a truthy template that is not a `dict` at all. */
  datatype HandlerError = KeyError(key: string) | TypeError

  /** The keyword a reply text acknowledges, read back from its wording, or
      `None` when the text is not an acknowledgement. */
  function AcknowledgedKeyword(reply: string): (keyword: Option<string>) {
    if |reply| >= |AckOpen| + |AckClose|
       && reply[..|AckOpen|] == AckOpen
       && reply[|reply| - |AckClose|..] == AckClose
    then Some(reply[|AckOpen|..|reply| - |AckClose|])
    else None
  }

  /** The options a menu text offers: its lines after the first, without
      their bullets. */
  function MenuOptions(menu: string): (options: seq<string>) {
    var lines := Strings.Split(menu, '\n');
    seq(|lines| - 1, i requires 0 <= i < |lines| - 1 => StripBullet(lines[i + 1]))
  }

  /** A menu line without its leading bullet, if it has one. */
  function StripBullet(line: string): (option: string) {
    if |line| > 0 && line[0] == Bullet then line[1..] else line
  }

  /** `handle_text_message`: one reply to the event's token, through the
      handler's client.  It acknowledges the text exactly when the text is
      one of the keywords, and otherwise asks for a screenshot. */
  function HandleText(h: Handler, e: Event): (call: ReplyCall)
    requires e.message.TextMessage?
    ensures call.client == h.client && call.replyToken == e.replyToken
    ensures call.message.TextSend?
    ensures AcknowledgedKeyword(call.message.text) ==
      if e.message.text in Keywords then Some(e.message.text) else None
    ensures AcknowledgedKeyword(call.message.text).None? ==> call.message.text == ScreenshotPrompt
  {
    var text := e.message.text;
    if text in Keywords then
      AcknowledgementReadsBack(text);
      ReplyCall(h.client, e.replyToken, TextSend(Acknowledgement(text)))
    else
      PromptIsNoAcknowledgement();
      ReplyCall(h.client, e.replyToken, TextSend(ScreenshotPrompt))
  }

  /** `handle_image_message`: with a truthy template, one flex reply whose
      alt text and contents are the template's `altText` and `contents`
      entries unchanged; with a falsy template, the fallback menu.  Reading a
      truthy template that is not a `dict`, or lacks a key, raises. */
  function HandleImage(h: Handler, e: Event): (r: Result<ReplyCall, HandlerError>)
    ensures r.Success? ==> r.value.client == h.client && r.value.replyToken == e.replyToken
    ensures !Json.Truthy(h.template) ==> r.Success? && r.value.message == TextSend(FallbackMenu())
    ensures Json.Truthy(h.template) ==>
      (r.Success? <==> h.template.Object? && "altText" in h.template.fields && "contents" in h.template.fields)
    ensures Json.Truthy(h.template) && r.Success? ==>
      r.value.message == FlexSend(h.template.fields["altText"], h.template.fields["contents"])
  {
    if !Json.Truthy(h.template) then
      Success(ReplyCall(h.client, e.replyToken, TextSend(FallbackMenu())))
    else
      match h.template
      case Object(fields) =>
        if "altText" !in fields then Failure(KeyError("altText"))
        else if "contents" !in fields then Failure(KeyError("contents"))
        else Success(ReplyCall(h.client, e.replyToken, FlexSend(fields["altText"], fields["contents"])))
      case _ => Failure(TypeError)
  }

  /** The handlers registered for message events: text and image messages
      get exactly one reply, to the event's own token; other message kinds
      have no handler and get none.  The reply is the one `HandleText` or
      `HandleImage` chooses, and only an image with an unusable template
      raises. */
  function Dispatch(h: Handler, e: Event): (r: Result<seq<ReplyCall>, HandlerError>)
    ensures r.Success? ==> |r.value| == (if e.message.OtherMessage? then 0 else 1)
    ensures r.Success? ==> forall i :: 0 <= i < |r.value| ==>
      r.value[i].replyToken == e.replyToken && r.value[i].client == h.client
    ensures r.Failure? ==> e.message.ImageMessage? && Json.Truthy(h.template)
    ensures e.message.TextMessage? ==>
      && r.Success?
      && r.value[0].message.TextSend?
      && AcknowledgedKeyword(r.value[0].message.text) ==
           (if e.message.text in Keywords then Some(e.message.text) else None)
      && (e.message.text !in Keywords ==> r.value[0].message == TextSend(ScreenshotPrompt))
    ensures e.message.ImageMessage? ==>
      (r.Failure? <==>
         Json.Truthy(h.template)
         && !(h.template.Object? && "altText" in h.template.fields && "contents" in h.template.fields))
    ensures e.message.ImageMessage? && !Json.Truthy(h.template) ==>
      r.Success? && r.value[0].message == TextSend(FallbackMenu())
    ensures e.message.ImageMessage? && Json.Truthy(h.template) && r.Success? ==>
      r.value[0].message == FlexSend(h.template.fields["altText"], h.template.fields["contents"])
  {
    match e.message
    case TextMessage(_) => Success([HandleText(h, e)])
    case ImageMessage =>
      var r := HandleImage(h, e);
      if r.Failure? then Failure(r.error) else Success([r.value])
    case OtherMessage(_) => Success([])
  }

  /** An acknowledgement names the keyword it acknowledges. */
  lemma AcknowledgementReadsBack(keyword: string)
    ensures AcknowledgedKeyword(Acknowledgement(keyword)) == Some(keyword)
  {
  }

  /** The screenshot prompt is not an acknowledgement of anything. */
  lemma PromptIsNoAcknowledgement()
    ensures AcknowledgedKeyword(ScreenshotPrompt).None?
  {
  }

  /** The acknowledgement of a keyword contains the keyword, right after the
      opening bracket, and is never the screenshot prompt. */
  lemma AcknowledgementEchoesKeyword(keyword: string)
    requires keyword in Keywords
    ensures Acknowledgement(keyword)[|AckOpen|..|AckOpen| + |keyword|] == keyword
    ensures Acknowledgement(keyword) != ScreenshotPrompt
  {
  }

  /** Matching is exact: a keyword with anything added in front or behind
      (a space, a newline, more text) is not a keyword and gets the
      screenshot prompt. */
  lemma PaddedKeywordGetsPrompt(h: Handler, token: string, keyword: string, extra: string)
    requires keyword in Keywords && |extra| > 0
    ensures HandleText(h, MessageEvent(token, TextMessage(keyword + extra))).message == TextSend(ScreenshotPrompt)
    ensures HandleText(h, MessageEvent(token, TextMessage(extra + keyword))).message == TextSend(ScreenshotPrompt)
  {
    NotPrefixOfAnother(keyword, keyword + extra);
    NotSuffixOfAnother(keyword, extra + keyword);
  }

  /** No keyword is a proper prefix of a keyword. */
  lemma NotPrefixOfAnother(keyword: string, s: string)
    requires keyword in Keywords && |s| > |keyword| && s[..|keyword|] == keyword
    ensures s !in Keywords
  {
    assert s[0] == keyword[0];
    if s in Keywords {
      KeywordsDifferInFirstChar(s, keyword);
    }
  }

  /** No keyword is a proper suffix of a keyword. */
  lemma NotSuffixOfAnother(keyword: string, s: string)
    requires keyword in Keywords && |s| > |keyword| && s[|s| - |keyword|..] == keyword
    ensures s !in Keywords
  {
    assert s[|s| - 1] == keyword[|keyword| - 1];
    if s in Keywords {
      KeywordsDifferInLastChar(s, keyword);
    }
  }

  /** Distinct keywords start with distinct characters. */
  lemma KeywordsDifferInFirstChar(a: string, b: string)
    requires a in Keywords && b in Keywords && a[0] == b[0]
    ensures a == b
  {
  }

  /** Distinct keywords end with distinct characters. */
  lemma KeywordsDifferInLastChar(a: string, b: string)
    requires a in Keywords && b in Keywords && a[|a| - 1] == b[|b| - 1]
    ensures a == b
  {
  }

  /** The fallback menu, spelled out, is the text the handler sends. */
  lemma FallbackMenuText()
    ensures FallbackMenu() == "スクリーンショットを確認しました。どうしますか？\n・削除候補\n・非表示\n・残す"
  {
  }

  /** The lines of the fallback menu hold no line break, and each line after
      the header is a bullet followed by a keyword. */
  lemma MenuLineFacts()
    ensures forall i :: 0 <= i < |MenuLines()| ==> '\n' !in MenuLines()[i]
    ensures forall i :: 0 <= i < |Keywords| ==> MenuLines()[i + 1] == [Bullet] + Keywords[i]
  {
  }

  /** The fallback menu offers exactly the keywords, in keyword order. */
  lemma FallbackMenuOffersKeywords()
    ensures MenuOptions(FallbackMenu()) == Keywords
  {
    var lines := MenuLines();
    MenuLineFacts();
    Strings.SplitJoin(lines, '\n');
    assert Strings.Split(FallbackMenu(), '\n') == lines;
    forall i | 0 <= i < |Keywords|
      ensures StripBullet(lines[i + 1]) == Keywords[i]
    {
      assert ([Bullet] + Keywords[i])[1..] == Keywords[i];
    }
  }

  /** Choosing any option of the fallback menu is acknowledged. */
  lemma MenuOptionsAreAcknowledged(h: Handler, token: string)
    ensures forall option :: option in MenuOptions(FallbackMenu()) ==>
      AcknowledgedKeyword(HandleText(h, MessageEvent(token, TextMessage(option))).message.text) == Some(option)
  {
    FallbackMenuOffersKeywords();
  }
}
