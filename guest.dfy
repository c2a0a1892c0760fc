/** The parts of the script injected into every frame (src/chatview.cpp,
    lines 118-301) that talk to the bridge: the encoder that turns copied text
    into the prompt payload, the call of the captured native prompt, and the
    placeholder through which the host gives the script its prefix. */
module GuestScript {
  import opened Strings
  import Base64
  import Utf8
  import Bridge

  /** The text the host replaces with the bridge prefix before injecting the script. */
  const Placeholder: string := "__CHATGPT_DESKTOP_COPY_PREFIX_PLACEHOLDER__"

  /** Binary characters are built in runs of this many bytes. */
  const ChunkSize: nat := 0x4000

  /** The "binary string" holding one character per byte, as String.fromCharCode
      builds it: a string btoa accepts, whose character codes are the bytes. */
  function Binary(b: seq<Byte>): (r: string)
    ensures |r| == |b|
    ensures IsBinary(r) && CharCodes(r) == b
  {
    seq(|b|, i requires 0 <= i < |b| => b[i] as char)
  }

  predicate IsBinary(s: string) {
    forall i :: 0 <= i < |s| ==> s[i] as int < 256
  }

  /** The bytes a binary string stands for. */
  function CharCodes(s: string): (r: seq<Byte>)
    requires IsBinary(s)
    ensures |r| == |s|
  {
    seq(|s|, i requires 0 <= i < |s| && IsBinary(s) => s[i] as int)
  }

  /** btoa: the padded base64 of a binary string, or an exception (None) when
      a character is above U+00FF. What it writes, the host's decoder reads
      back as the string's character codes. */
  function Btoa(binary: string): (r: Option<string>)
    ensures r.Some? <==> IsBinary(binary)
    ensures r.Some? ==> Base64.Decode(r.value) == CharCodes(binary)
  {
    if IsBinary(binary) then
      Base64.DecodeEncode(CharCodes(binary));
      Some(Base64.Encode(CharCodes(binary)))
    else None
  }

  lemma BinaryGrows(u: seq<Byte>, start: nat, index: nat)
    requires start <= index < |u|
    ensures Binary(u[start..index + 1]) == Binary(u[start..index]) + [u[index] as char]
  {
  }

  lemma BinaryJoins(u: seq<Byte>, start: nat, end: nat)
    requires start <= end <= |u|
    ensures Binary(u[..end]) == Binary(u[..start]) + Binary(u[start..end])
  {
  }

  function Min(a: int, b: int): int {
    if a < b then a else b
  }

  /** encodeTextAsBase64: the base64 of the text's UTF-8 bytes, built through
      a binary string one chunk at a time. */
  method EncodeTextAsBase64(text: string) returns (encoded: string)
    ensures encoded == Base64.Encode(Utf8.Encode(text))
  {
    if |text| == 0 {
      return "";
    }
    var utf8 := Utf8.Encode(text);
    var binary := "";
    var start := 0;
    while start < |utf8|
      invariant 0 <= start
      invariant binary == Binary(utf8[..Min(start, |utf8|)])
      decreases |utf8| - start
    {
      var end := Min(start + ChunkSize, |utf8|);
      var chunk := "";
      var index := start;
      while index < end
        invariant start <= index <= end
        invariant chunk == Binary(utf8[start..index])
      {
        BinaryGrows(utf8, start, index);
        chunk := chunk + [utf8[index] as char];
        index := index + 1;
      }
      BinaryJoins(utf8, start, end);
      binary := binary + chunk;
      start := start + ChunkSize;
    }
    assert utf8[..|utf8|] == utf8;
    var result := Btoa(binary);
    encoded := result.value;
  }

  /** sendNativeCopy: nothing is sent for empty text or without a captured
      prompt; otherwise the prefixed payload goes to the prompt, and the copy
      counts as done exactly when the answer is "ok". The prompt's result is
      None when it throws or returns null. */
  method SendNativeCopy(copyPrefix: string, text: string, nativePrompt: Option<string -> Option<string>>)
    returns (copied: bool)
    ensures copied <==> text != [] && nativePrompt.Some?
                        && nativePrompt.value(Bridge.GuestMessage(copyPrefix, text)) == Some("ok")
  {
    var base64 := EncodeTextAsBase64(text);
    Utf8.EncodeEmpty(text);
    Base64.EncodeEmpty(Utf8.Encode(text));
    if base64 == [] || nativePrompt.None? {
      return false;
    }
    var response := nativePrompt.value(copyPrefix + base64);
    copied := response == Some("ok");
  }
}
