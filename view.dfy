/** The ChatView of src/chatview.cpp: it resolves and locks the profile
    paths, creates the page with a per-process bridge prefix, injects the
    guest script with that prefix substituted in, runs the flush controller
    on its own fields, and routes downloads through the save dialog.

    Inputs stand for the environment: the writable locations, the home and
    working directories, the lock outcome, the process id, the clock, the
    UUID, the save dialog's answer and whether a directory can be created. */
module View {
  import opened Strings
  import opened Paths
  import opened Trust
  import Base64
  import Utf8
  import Bridge
  import GuestScript
  import Profile
  import Persistence
  import Downloads

  /** The page the view loads first. */
  const StartHost: string := "chatgpt.com"

  /** BuildClipboardBridgePrefix for the UUID text uuid. */
  function BuildClipboardBridgePrefix(uuid: string): (r: string)
    ensures StartsWith(r, Bridge.CopyPrefix) && EndsWith(r, "__")
  {
    var r := Bridge.CopyPrefix + uuid + "__";
    StartsWithConcat(Bridge.CopyPrefix, uuid + "__");
    assert r == Bridge.CopyPrefix + (uuid + "__");
    EndsWithConcat(Bridge.CopyPrefix + uuid, "__");
    r
  }

  /** Different UUIDs give different prefixes. */
  lemma PrefixDeterminesUuid(u1: string, u2: string)
    requires BuildClipboardBridgePrefix(u1) == BuildClipboardBridgePrefix(u2)
    ensures u1 == u2
  {
    var p1, p2 := BuildClipboardBridgePrefix(u1), BuildClipboardBridgePrefix(u2);
    var n := |Bridge.CopyPrefix|;
    assert u1 == p1[n..|p1| - 2];
    assert u2 == p2[n..|p2| - 2];
  }

  /** The script source after the placeholder is replaced: with exactly one
      placeholder in the template, the script is the template with the prefix in its place. */
  lemma ScriptCarriesPrefix(pre: string, post: string, prefix: string)
    requires forall i :: 0 <= i < |pre| ==>
               !StartsWith((pre + GuestScript.Placeholder + post)[i..], GuestScript.Placeholder)
    requires forall i :: 0 <= i < |post| ==> !StartsWith(post[i..], GuestScript.Placeholder)
    ensures ReplaceAll(pre + GuestScript.Placeholder + post, GuestScript.Placeholder, prefix)
            == pre + prefix + post
  {
    ReplaceSingle(pre, post, GuestScript.Placeholder, prefix);
  }

  class ChatView {
    const storageRoot: string
    const cacheRoot: string
    const lockPath: string
    const activeStoragePath: string
    const activeCachePath: string
    const clipboardBridgePrefix: string
    const scriptSource: string
    const page: Bridge.ChatWebPage
    const profilePresent: bool
    const cookieStorePresent: bool
    var dirty: bool
    var flushInProgress: bool
    var shutdownFlushComplete: bool
    var timerActive: bool
    var deadline: int
    var storeWrites: nat
    var shutdownWaits: nat

    /** The flush controller's state held in this view's fields. */
    function State(): Persistence.Controller
      reads this
    {
      Persistence.Controller(profilePresent, cookieStorePresent, dirty, flushInProgress,
                             shutdownFlushComplete, timerActive, deadline, storeWrites, shutdownWaits)
    }

    constructor (locations: Profile.Locations, home: string, lockAcquired: bool, pid: nat, ms: int,
                 uuid: string, hasCookieStore: bool, hasApplication: bool, scriptTemplate: string)
      ensures storageRoot == Profile.ResolvedRoot(Profile.StorageCandidate(locations), Profile.StorageFallback(home))
      ensures cacheRoot == Profile.ResolvedRoot(locations.cache, Profile.CacheFallback(home))
      ensures lockPath == Profile.LockPath(storageRoot)
      ensures (activeStoragePath, activeCachePath)
              == Profile.ActiveRoots(storageRoot, cacheRoot, lockAcquired, pid, ms)
      ensures clipboardBridgePrefix == BuildClipboardBridgePrefix(uuid)
      ensures fresh(page) && page.clipboardBridgePrefix == clipboardBridgePrefix
      ensures page.urlHost == StartHost && page.committed == [] && page.hasApplication == hasApplication
      ensures scriptSource == ReplaceAll(scriptTemplate, GuestScript.Placeholder, clipboardBridgePrefix)
      ensures State() == Persistence.Initial(true, hasCookieStore)
    {
      var storage, cache := Profile.ResolveProfileRoots(locations, home);
      storageRoot := storage;
      cacheRoot := cache;
      var activeStorage, activeCache := storage, cache;
      lockPath := JoinPath(storage, Profile.LockFileName);
      if !lockAcquired {
        var isolatedSuffix := Profile.IsolatedSuffix(pid, ms);
        activeStorage := JoinPath(storage, isolatedSuffix);
        activeCache := JoinPath(cache, isolatedSuffix);
      }
      activeStoragePath := activeStorage;
      activeCachePath := activeCache;
      var prefix := BuildClipboardBridgePrefix(uuid);
      clipboardBridgePrefix := prefix;
      page := new Bridge.ChatWebPage(prefix, StartHost, hasApplication);
      scriptSource := ReplaceAll(scriptTemplate, GuestScript.Placeholder, prefix);
      profilePresent := true;
      cookieStorePresent := hasCookieStore;
      dirty := false;
      flushInProgress := false;
      shutdownFlushComplete := false;
      timerActive := false;
      deadline := 0;
      storeWrites := 0;
      shutdownWaits := 0;
    }

    /** MarkPersistentStateDirty, on a cookie added or removed at time now. */
    method MarkPersistentStateDirty(now: int)
      modifies this
      ensures State() == Persistence.MarkDirty(old(State()), now)
    {
      dirty := true;
      timerActive := true;
      deadline := now + Persistence.DebounceIntervalMs;
    }

    /** FlushPersistentStateAsync. */
    method FlushPersistentStateAsync()
      modifies this
      ensures State() == Persistence.FlushAsync(old(State()))
    {
      if flushInProgress || !profilePresent || !dirty {
        return;
      }
      flushInProgress := true;
      if cookieStorePresent {
        storeWrites := storeWrites + 1;
      }
      dirty := false;
      flushInProgress := false;
    }

    /** FlushPersistentStateSync, from aboutToQuit or the destructor. */
    method FlushPersistentStateSync()
      modifies this
      ensures State() == Persistence.FlushSync(old(State()))
    {
      if !profilePresent || shutdownFlushComplete {
        return;
      }
      if timerActive {
        timerActive := false;
      }
      dirty := true;
      FlushPersistentStateAsync();
      shutdownWaits := shutdownWaits + 1;
      shutdownFlushComplete := true;
    }

    /** The event loop at time now: the debounce timer times out once its deadline is reached. */
    method TimerDue(now: int)
      modifies this
      ensures State() == Persistence.Step(old(State()), Persistence.TimerDue(now))
    {
      if timerActive && now >= deadline {
        timerActive := false;
        FlushPersistentStateAsync();
      }
    }

    /** HandleDownloadRequest: the dialog, given the suggested path, answers
      with the user's pick; the download is then cancelled or accepted with
      the directory and file name the pick gives. */
    method HandleDownloadRequest(download: Downloads.DownloadRequest?, downloadLocation: string,
                                 home: string, cwd: string,
                                 chooseFile: string -> string, makePath: string -> bool)
      modifies download
      ensures download != null ==>
        var target := Downloads.TargetFor(
          chooseFile(Downloads.SuggestedPath(downloadLocation, home, old(download.downloadFileName))),
          cwd, makePath);
        match target
        case Cancel =>
          download.state == Downloads.Cancelled
          && download.downloadFileName == old(download.downloadFileName)
          && download.downloadDirectory == old(download.downloadDirectory)
        case Save(directory, fileName) =>
          download.state == Downloads.Accepted
          && download.downloadDirectory == directory && download.downloadFileName == fileName
    {
      if download == null {
        return;
      }
      var suggestedName := Downloads.SuggestedName(download.downloadFileName);
      var suggestedPath := JoinPath(Downloads.DownloadDirectoryPath(downloadLocation, home), suggestedName);
      var selectedPath := chooseFile(suggestedPath);
      Downloads.ApplyPick(download, selectedPath, cwd, makePath);
    }
  }

  /** javaScriptPrompt as src/chatwebpage.cpp writes it: the message is
      tested against the fixed marker, not against the page's own prefix. */
  function DecideAsWritten(origin: Url, pageHost: string, msg: string): Bridge.Decision {
    Bridge.Decide(Bridge.CopyPrefix, origin, pageHost, msg)
  }

  predicate IsHexDigit(c: char) {
    ('0' <= c <= '9') || ('a' <= c <= 'f')
  }

  /** QUuid::toString(QUuid::WithoutBraces): 8-4-4-4-12 lower-case hex digits. */
  predicate IsUuidText(u: string) {
    |u| == 36
    && (forall i :: 0 <= i < 36 && i != 8 && i != 13 && i != 18 && i != 23 ==> IsHexDigit(u[i]))
    && u[8] == '-' && u[13] == '-' && u[18] == '-' && u[23] == '-'
  }

  lemma HexRunSextets(s: string)
    requires forall i :: 0 <= i < |s| ==> IsHexDigit(s[i])
    ensures |Base64.Sextets(s)| == |s|
  {
    assert s + "" == s;
    Base64.SextetsOfAlphabet(s, "");
  }

  /** The 32 hex digits of a UUID are base64 alphabet characters; its dashes are not. */
  lemma UuidSextets(u: string)
    requires IsUuidText(u)
    ensures |Base64.Sextets(u)| == 32
  {
    var g0, g1, g2, g3, g4 := u[..8], u[9..13], u[14..18], u[19..23], u[24..];
    assert u == g0 + "-" + g1 + "-" + g2 + "-" + g3 + "-" + g4;
    HexRunSextets(g0); HexRunSextets(g1); HexRunSextets(g2); HexRunSextets(g3); HexRunSextets(g4);
    Base64.SextetsAppend(g0 + "-" + g1 + "-" + g2 + "-" + g3 + "-", g4);
    Base64.SextetsAppend(g0 + "-" + g1 + "-" + g2 + "-" + g3, "-");
    Base64.SextetsAppend(g0 + "-" + g1 + "-" + g2 + "-", g3);
    Base64.SextetsAppend(g0 + "-" + g1 + "-" + g2, "-");
    Base64.SextetsAppend(g0 + "-" + g1 + "-", g2);
    Base64.SextetsAppend(g0 + "-" + g1, "-");
    Base64.SextetsAppend(g0 + "-", g1);
    Base64.SextetsAppend(g0, "-");
  }

  lemma Latin1OfAscii(s: string)
    requires forall i :: 0 <= i < |s| ==> s[i] as int < 0x80
    ensures Base64.ToLatin1(s) == s
  {
  }

  lemma UuidIsAscii(uuid: string)
    requires IsUuidText(uuid)
    ensures forall i :: 0 <= i < |uuid| ==> uuid[i] as int < 0x80
  {
    forall i | 0 <= i < |uuid|
      ensures uuid[i] as int < 0x80
    {
      assert i == 8 || i == 13 || i == 18 || i == 23 || IsHexDigit(uuid[i]);
    }
  }

  /** The remainder the as-written chain decodes: the UUID, "__" and the payload. */
  lemma AsWrittenRemainder(uuid: string, e: string)
    ensures (BuildClipboardBridgePrefix(uuid) + e)[|Bridge.CopyPrefix|..] == uuid + "__" + e
  {
    assert BuildClipboardBridgePrefix(uuid) + e == Bridge.CopyPrefix + (uuid + "__" + e);
    StartsWithConcat(Bridge.CopyPrefix, uuid + "__" + e);
  }

  lemma RemainderSextets(uuid: string, e: string)
    ensures Base64.Sextets(uuid + "__" + e) == Base64.Sextets(uuid) + Base64.Sextets(e)
  {
    Base64.SextetsAppend(uuid + "__", e);
    Base64.SextetsAppend(uuid, "__");
    assert Base64.Sextets("__") == [];
  }

  /** As written, the guest's genuine message loses only the fixed marker:
      the decoder also reads the UUID's 32 hex digits, so 24 bytes that were
      never sent come before the copied bytes. */
  lemma AsWrittenPayloadHasUuidBytes(uuid: string, b: seq<Byte>)
    requires IsUuidText(uuid)
    ensures var rest := (BuildClipboardBridgePrefix(uuid) + Base64.Encode(b))[|Bridge.CopyPrefix|..];
            var junk := Base64.Pack(Base64.Sextets(uuid));
            Bridge.Payload(rest) == junk + b && |junk| == 24
  {
    var e := Base64.Encode(b);
    var rest := uuid + "__" + e;
    AsWrittenRemainder(uuid, e);
    Base64.EncodeIsAscii(b);
    UuidIsAscii(uuid);
    assert forall i :: 0 <= i < |rest| ==> rest[i] as int < 0x80 by {
      forall i | 0 <= i < |rest| ensures rest[i] as int < 0x80 {
        if i < |uuid| { assert rest[i] == uuid[i]; }
        else if i >= |uuid| + 2 { assert rest[i] == e[i - |uuid| - 2]; }
      }
    }
    Latin1OfAscii(rest);
    RemainderSextets(uuid, e);
    UuidSextets(uuid);
    Base64.PackAppend(Base64.Sextets(uuid), Base64.Sextets(e));
    Base64.PackLength(Base64.Sextets(uuid));
    Base64.DecodeEncode(b);
  }

  /** As written, whatever text the guest copies with a session prefix, a
      text that arrives is long enough to hold the 24 extra bytes as well. */
  lemma AsWrittenArrivingTextIsLonger(origin: Url, pageHost: string, uuid: string, text: string, received: string)
    requires IsUuidText(uuid)
    requires DecideAsWritten(origin, pageHost, Bridge.GuestMessage(BuildClipboardBridgePrefix(uuid), text))
             == Bridge.Answered(Bridge.Ok(received))
    ensures 4 * |received| + 3 >= 24 + |Utf8.Encode(text)|
  {
    var msg := Bridge.GuestMessage(BuildClipboardBridgePrefix(uuid), text);
    var b := Utf8.Encode(text);
    AsWrittenPayloadHasUuidBytes(uuid, b);
    Bridge.OkIsTrustedMeaningfulAndBounded(Bridge.CopyPrefix, origin, pageHost, msg, received);
    Utf8.DecodeLength(Bridge.Payload(msg[|Bridge.CopyPrefix|..]));
  }

  /** As written, copying "hi" with a session prefix never commits "hi". */
  lemma AsWrittenCorruptsCopiedText(origin: Url, pageHost: string, uuid: string)
    requires IsUuidText(uuid)
    ensures DecideAsWritten(origin, pageHost, Bridge.GuestMessage(BuildClipboardBridgePrefix(uuid), "hi"))
            != Bridge.Answered(Bridge.Ok("hi"))
  {
    if DecideAsWritten(origin, pageHost, Bridge.GuestMessage(BuildClipboardBridgePrefix(uuid), "hi"))
       == Bridge.Answered(Bridge.Ok("hi")) {
      AsWrittenArrivingTextIsLonger(origin, pageHost, uuid, "hi", "hi");
    }
  }

  /** As written, a page script that never saw the session prefix can still
      commit text: the fixed marker and a payload are enough. With the page's
      own prefix the same prompt is left to the default handling. */
  lemma AsWrittenAcceptsForgedPrompt(origin: Url, pageHost: string, uuid: string)
    requires IsTrustedClipboardOrigin(origin, pageHost) && IsUuidText(uuid)
    ensures DecideAsWritten(origin, pageHost, Bridge.CopyPrefix + "aGk=") == Bridge.Answered(Bridge.Ok("hi"))
    ensures Bridge.Decide(BuildClipboardBridgePrefix(uuid), origin, pageHost, Bridge.CopyPrefix + "aGk=")
            == Bridge.PassThrough
  {
    var b := Utf8.Encode("hi");
    assert b == [0x68, 0x69];
    assert Base64.Encode(b) == "aGk=";
    assert !Bridge.IsBlank("hi") by { assert !Bridge.IsSpace("hi"[0]); }
    Bridge.GuestTextArrives(Bridge.CopyPrefix, origin, pageHost, "hi");
  }

  /** With the page's own prefix, every message the bridge answers carries the
      session's UUID right after the fixed marker: a script that does not
      know the UUID cannot reach the clipboard. */
  lemma SessionPrefixNeedsUuid(origin: Url, pageHost: string, uuid: string, msg: string)
    requires Bridge.Decide(BuildClipboardBridgePrefix(uuid), origin, pageHost, msg).Answered?
    ensures |msg| >= |Bridge.CopyPrefix| + |uuid| + 2
    ensures msg[|Bridge.CopyPrefix|..|Bridge.CopyPrefix| + |uuid|] == uuid
  {
    var p := BuildClipboardBridgePrefix(uuid);
    var n := |Bridge.CopyPrefix|;
    assert msg[..|p|] == p;
    assert msg[n..n + |uuid|] == p[n..n + |uuid|];
  }

  /** With the page's own prefix, as the header and the view intend, the
      guest's message for any meaningful text within the cap commits that text. */
  lemma SessionPrefixDeliversText(origin: Url, pageHost: string, uuid: string, text: string)
    requires IsTrustedClipboardOrigin(origin, pageHost)
    requires !Bridge.IsBlank(text) && text[0] != Utf8.ByteOrderMark
    requires |Utf8.Encode(text)| <= Bridge.MaxClipboardBytes
    ensures var prefix := BuildClipboardBridgePrefix(uuid);
            Bridge.Decide(prefix, origin, pageHost, Bridge.GuestMessage(prefix, text)) == Bridge.Answered(Bridge.Ok(text))
  {
    Bridge.GuestTextArrives(BuildClipboardBridgePrefix(uuid), origin, pageHost, text);
  }
}
