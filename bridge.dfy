/** The host side of the clipboard bridge (src/chatwebpage.cpp): the page
    answers a JavaScript prompt that starts with the bridge prefix instead of
    showing it, and commits the decoded text to the clipboard when the sender
    is trusted and the payload is meaningful. */
module Bridge {
  import opened Strings
  import Base64
  import Utf8
  import opened Trust

  /** Largest decoded payload the bridge accepts: 8 MiB. */
  const MaxClipboardBytes: nat := 8 * 1024 * 1024

  /** The fixed marker every bridge prefix starts with. */
  const CopyPrefix: string := "__CHATGPT_DESKTOP_COPY__"

  /** QChar::isSpace: the control characters TAB to CR, U+0085, and the
      Unicode space, line and paragraph separators. */
  predicate IsSpace(c: char) {
    ('\t' <= c <= '\r') || c == ' ' || c == '\U{85}' || c == '\U{A0}' || c == '\U{1680}'
    || ('\U{2000}' <= c <= '\U{200A}') || c == '\U{2028}' || c == '\U{2029}'
    || c == '\U{202F}' || c == '\U{205F}' || c == '\U{3000}'
  }

  predicate IsBlank(s: string) {
    forall i :: 0 <= i < |s| ==> IsSpace(s[i])
  }

  /** s without its leading white space. */
  function TrimStart(s: string): (r: string)
    ensures |r| <= |s| && r == s[|s| - |r|..]
    ensures IsBlank(s[..|s| - |r|])
    ensures r == [] || !IsSpace(r[0])
    decreases |s|
  {
    if s != [] && IsSpace(s[0]) then TrimStart(s[1..]) else s
  }

  /** s without its trailing white space. */
  function TrimEnd(s: string): (r: string)
    ensures |r| <= |s| && r == s[..|r|]
    ensures IsBlank(s[|r|..])
    ensures r == [] || !IsSpace(r[|r| - 1])
    decreases |s|
  {
    if s != [] && IsSpace(s[|s| - 1]) then TrimEnd(s[..|s| - 1]) else s
  }

  /** QString::trimmed. */
  function Trimmed(s: string): string {
    TrimEnd(TrimStart(s))
  }

  /** trimmed().isEmpty() holds exactly for the text made only of white space. */
  lemma TrimmedEmptyIffBlank(s: string)
    ensures Trimmed(s) == [] <==> IsBlank(s)
  {
    var t := TrimStart(s);
    var k := |s| - |t|;
    if Trimmed(s) == [] {
      assert t[0..] == t;
      assert t == [];
      assert s[..k] == s;
    } else {
      assert s[k] == t[0];
    }
  }

  /** The answer written through the prompt's result pointer. */
  datatype Answer = Rejected | Empty | Invalid | EmptyText | Ok(text: string)

  function Literal(a: Answer): (r: string)
    ensures r != "ok" <==> !a.Ok?
  {
    match a
    case Rejected => "rejected"
    case Empty => "empty"
    case Invalid => "invalid"
    case EmptyText => "empty-text"
    case Ok(_) => "ok"
  }

  /** A message is either left to the default prompt handling or answered by the bridge. */
  datatype Decision = PassThrough | Answered(answer: Answer)

  /** The bytes QByteArray::fromBase64(encodedText.toLatin1()) yields. */
  function Payload(encoded: string): seq<Byte> {
    Base64.Decode(Base64.ToLatin1(encoded))
  }

  /** The javaScriptPrompt chain for a page whose bridge prefix is prefix and
      whose current URL has host pageHost. */
  function Decide(prefix: string, origin: Url, pageHost: string, msg: string): Decision {
    if !StartsWith(msg, prefix) then PassThrough
    else if !IsTrustedClipboardOrigin(origin, pageHost) then Answered(Rejected)
    else
      var encoded := msg[|prefix|..];
      if encoded == [] then Answered(Empty)
      else
        var payload := Payload(encoded);
        if payload == [] || |payload| > MaxClipboardBytes then Answered(Invalid)
        else
          var text := Utf8.Decode(payload);
          if Trimmed(text) == [] then Answered(EmptyText) else Answered(Ok(text))
  }

  /** The prompt text the guest script sends for text: the prefix, then the
      base64 of its UTF-8 bytes. */
  function GuestMessage(prefix: string, text: string): string {
    prefix + Base64.Encode(Utf8.Encode(text))
  }

  /** Exactly the messages without the prefix are left to the default handling:
      every bridge message is answered and none falls through. */
  lemma PassThroughIffUnprefixed(prefix: string, origin: Url, pageHost: string, msg: string)
    ensures Decide(prefix, origin, pageHost, msg) == PassThrough <==> !StartsWith(msg, prefix)
  {
  }

  /** A bridge message from an untrusted origin is rejected whatever it carries,
      and rejection happens for no other reason. */
  lemma RejectedIffUntrusted(prefix: string, origin: Url, pageHost: string, msg: string)
    ensures Decide(prefix, origin, pageHost, msg) == Answered(Rejected)
            <==> StartsWith(msg, prefix) && !IsTrustedClipboardOrigin(origin, pageHost)
  {
  }

  /** The bare prefix from a trusted origin is answered "empty". */
  lemma BarePrefixIsEmpty(prefix: string, origin: Url, pageHost: string)
    requires IsTrustedClipboardOrigin(origin, pageHost)
    ensures Decide(prefix, origin, pageHost, prefix) == Answered(Empty)
  {
    assert prefix[..|prefix|] == prefix;
  }

  /** A non-empty remainder holding fewer than two base64 alphabet characters
      (padding only, say) decodes to nothing and is answered "invalid". */
  lemma UndecodableRemainderIsInvalid(prefix: string, origin: Url, pageHost: string, rest: string)
    requires IsTrustedClipboardOrigin(origin, pageHost)
    requires rest != [] && |Base64.Sextets(Base64.ToLatin1(rest))| < 2
    ensures Decide(prefix, origin, pageHost, prefix + rest) == Answered(Invalid)
  {
    StartsWithConcat(prefix, rest);
    Base64.PackLength(Base64.Sextets(Base64.ToLatin1(rest)));
  }

  /** A payload's size decides between "invalid" and the text checks: any
      byte count above 8 MiB is invalid, and a non-empty payload of at most
      8 MiB (exactly 8 MiB included) never is. */
  lemma CapDecidesValidity(prefix: string, origin: Url, pageHost: string, b: seq<Byte>)
    requires IsTrustedClipboardOrigin(origin, pageHost) && b != []
    ensures Decide(prefix, origin, pageHost, prefix + Base64.Encode(b)) == Answered(Invalid)
            <==> |b| > MaxClipboardBytes
  {
    var e := Base64.Encode(b);
    Base64.EncodeEmpty(b);
    StartsWithConcat(prefix, e);
    Base64.Latin1OfEncode(b);
    Base64.DecodeEncode(b);
  }

  /** What the bridge answers to the message the guest script sends for a
      non-empty text from a trusted origin: "invalid" above the cap, otherwise
      "empty-text" or "ok" with the text as sent, less a leading U+FEFF that
      the decoder takes for a byte-order mark. */
  lemma GuestMessageOutcome(prefix: string, origin: Url, pageHost: string, text: string)
    requires IsTrustedClipboardOrigin(origin, pageHost) && text != []
    ensures var received := if text[0] == Utf8.ByteOrderMark then text[1..] else text;
            Decide(prefix, origin, pageHost, GuestMessage(prefix, text))
            == Answered(if |Utf8.Encode(text)| > MaxClipboardBytes then Invalid
                        else if Trimmed(received) == [] then EmptyText
                        else Ok(received))
  {
    var b := Utf8.Encode(text);
    Utf8.EncodeEmpty(text);
    Base64.EncodeEmpty(b);
    StartsWithConcat(prefix, Base64.Encode(b));
    Base64.Latin1OfEncode(b);
    Base64.DecodeEncode(b);
    Utf8.DecodeEncode(text);
  }

  /** Round trip through the bridge: text that does not start with U+FEFF, is
      not blank and fits the cap arrives unchanged and is answered "ok". */
  lemma GuestTextArrives(prefix: string, origin: Url, pageHost: string, text: string)
    requires IsTrustedClipboardOrigin(origin, pageHost)
    requires !IsBlank(text) && text[0] != Utf8.ByteOrderMark
    requires |Utf8.Encode(text)| <= MaxClipboardBytes
    ensures Decide(prefix, origin, pageHost, GuestMessage(prefix, text)) == Answered(Ok(text))
  {
    TrimmedEmptyIffBlank(text);
    GuestMessageOutcome(prefix, origin, pageHost, text);
  }

  /** Whatever is answered "ok" carries text that is not blank, decoded from a
      payload within the cap, sent from a trusted origin. */
  lemma OkIsTrustedMeaningfulAndBounded(prefix: string, origin: Url, pageHost: string, msg: string, text: string)
    requires Decide(prefix, origin, pageHost, msg) == Answered(Ok(text))
    ensures StartsWith(msg, prefix) && IsTrustedClipboardOrigin(origin, pageHost)
    ensures 0 < |Payload(msg[|prefix|..])| <= MaxClipboardBytes
    ensures text == Utf8.Decode(Payload(msg[|prefix|..])) && !IsBlank(text)
  {
    assert StartsWith(msg, prefix) && IsTrustedClipboardOrigin(origin, pageHost);
    var payload := Payload(msg[|prefix|..]);
    assert 0 < |payload| <= MaxClipboardBytes;
    assert text == Utf8.Decode(payload) && Trimmed(text) != [];
    TrimmedEmptyIffBlank(text);
  }

  /** The prompt's outcome as the browser sees it: default handling, or
      handled, with the answer written when a result pointer was given. */
  datatype Reply = Delegated | Handled(result: Option<string>)

  class ChatWebPage {
    /** The per-process prefix the page shares with its injected script. */
    const clipboardBridgePrefix: string
    /** Whether a GUI application instance exists to queue clipboard writes on. */
    const hasApplication: bool
    /** Host of the page's current URL. */
    var urlHost: string
    /** Texts queued for the clipboard, oldest first. */
    var committed: seq<string>

    constructor (prefix: string, host: string, application: bool)
      ensures clipboardBridgePrefix == prefix && hasApplication == application
      ensures urlHost == host && committed == []
    {
      clipboardBridgePrefix := prefix;
      hasApplication := application;
      urlHost := host;
      committed := [];
    }

    /** CommitClipboardText: blank text, or no application to queue on, commits nothing. */
    method CommitClipboardText(text: string)
      modifies this`committed
      ensures committed == old(committed) + (if !IsBlank(text) && hasApplication then [text] else [])
    {
      TrimmedEmptyIffBlank(text);
      if Trimmed(text) == [] {
        return;
      }
      if !hasApplication {
        return;
      }
      committed := committed + [text];
    }

    /** javaScriptPrompt: a bridge message is answered and, when "ok", its
      text is committed exactly once; any other message is delegated. */
    method JavaScriptPrompt(origin: Url, msg: string, hasResult: bool) returns (reply: Reply)
      modifies this`committed
      ensures Decide(clipboardBridgePrefix, origin, urlHost, msg) == PassThrough ==> reply == Delegated
      ensures Decide(clipboardBridgePrefix, origin, urlHost, msg).Answered? ==>
                reply == Handled(if hasResult then Some(Literal(Decide(clipboardBridgePrefix, origin, urlHost, msg).answer))
                                 else None)
      ensures committed == old(committed) +
                (if Decide(clipboardBridgePrefix, origin, urlHost, msg).Answered?
                    && Decide(clipboardBridgePrefix, origin, urlHost, msg).answer.Ok? && hasApplication
                 then [Decide(clipboardBridgePrefix, origin, urlHost, msg).answer.text] else [])
    {
      var prefix := clipboardBridgePrefix;
      if !StartsWith(msg, prefix) {
        return Delegated;
      }
      if !IsTrustedClipboardOrigin(origin, urlHost) {
        return Handled(if hasResult then Some("rejected") else None);
      }
      var encodedText := msg[|prefix|..];
      if encodedText == [] {
        return Handled(if hasResult then Some("empty") else None);
      }
      var decodedPayload := Payload(encodedText);
      if decodedPayload == [] || |decodedPayload| > MaxClipboardBytes {
        return Handled(if hasResult then Some("invalid") else None);
      }
      var text := Utf8.Decode(decodedPayload);
      if Trimmed(text) == [] {
        return Handled(if hasResult then Some("empty-text") else None);
      }
      TrimmedEmptyIffBlank(text);
      CommitClipboardText(text);
      return Handled(if hasResult then Some("ok") else None);
    }
  }
}
