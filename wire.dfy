/**
  The text the server puts on the wire and the framing it applies to what
  it reads: every fixed notice, the three line formats built from a
  user's address and name, and the one-byte trim of an inbound read.
 */
module Wire {
  import opened GoString

  // Commands a client may send, as bytes (`CommandTokens` gives their text).
  const WhoCmd: Str := [119, 104, 111]
  const RenamePrefix: Str := [114, 101, 110, 97, 109, 101, 124]
  const ToPrefix: Str := [116, 111, 124]

  // Punctuation of the broadcast line format.
  const LBracket: byte := 91
  const RBracket: byte := 93
  const Colon: byte := 58

  // The fixed texts: the UTF-8 bytes of the source's string literals,
  // whose text is given above each.

  // Suffixes of the broadcast lines and of the `who` lines.
  // "已上线" (has come online)
  const OnlineText: Str := [229, 183, 178, 228, 184, 138, 231, 186, 191]
  // "下线" (has gone offline)
  const OfflineText: Str := [228, 184, 139, 231, 186, 191]
  // "在线... \n" (online)
  const OnlineMarker: Str := [229, 156, 168, 231, 186, 191, 46, 46, 46, 32, 10]

  // Notices for the requester, and the infix of a directed message.
  // "当前用户名被使用\n" (name in use)
  const NameInUse: Str := [229, 189, 147, 229, 137, 141, 231, 148, 168, 230, 136, 183, 229, 144, 141, 232, 162, 171, 228, 189, 191, 231, 148, 168, 10]
  // "您已经更新用户名:" (your name is now)
  const RenamedText: Str := [230, 130, 168, 229, 183, 178, 231, 187, 143, 230, 155, 180, 230, 150, 176, 231, 148, 168, 230, 136, 183, 229, 144, 141, 58]
  // "消息格式不正确，请使用 \"to|张三|你好啊\"格式。\n" (bad format, use to|name|text)
  const BadToFormat: Str := [230, 182, 136, 230, 129, 175, 230, 160, 188, 229, 188, 143, 228, 184, 141, 230, 173, 163, 231, 161, 174, 239, 188, 140, 232, 175, 183, 228, 189, 191, 231, 148, 168, 32, 34, 116, 111, 124, 229, 188, 160, 228, 184, 137, 124, 228, 189, 160, 229, 165, 189, 229, 149, 138, 34, 230, 160, 188, 229, 188, 143, 227, 128, 130, 10]
  // "该用户名不存在\n" (no such user)
  const NoSuchUser: Str := [232, 175, 165, 231, 148, 168, 230, 136, 183, 229, 144, 141, 228, 184, 141, 229, 173, 152, 229, 156, 168, 10]
  // "无消息内容，请重发\n" (no content, send again)
  const EmptyContent: Str := [230, 151, 160, 230, 182, 136, 230, 129, 175, 229, 134, 133, 229, 174, 185, 239, 188, 140, 232, 175, 183, 233, 135, 141, 229, 143, 145, 10]
  // "对您说:" (says to you)
  const SaysToYou: Str := [229, 175, 185, 230, 130, 168, 232, 175, 180, 58]

  /** Size of the read buffer of a connection. */
  const ReadBufferSize: nat := 4096

  /** The command tokens are the bytes of their text. */
  lemma CommandTokens()
    ensures WhoCmd == Utf8("who")
    ensures RenamePrefix == Utf8("rename|")
    ensures ToPrefix == Utf8("to|")
  {
  }

  /** The punctuation bytes are those of their text. */
  lemma PunctuationBytes()
    ensures [LBracket] == Utf8("[") && [RBracket] == Utf8("]") && [Colon] == Utf8(":")
    ensures [Bar] == Utf8("|") && [Newline] == Utf8("\n")
  {
  }

  /** The broadcast line `[addr]name:msg`. Its address can be read back
      from between the brackets (when it has no `]` of its own), and the
      message is its tail. */
  function BroadcastLine(addr: Str, name: Str, msg: Str): (r: Str)
    ensures |r| == |addr| + |name| + |msg| + 3
    ensures RBracket !in addr ==> SenderAddr(r) == Some(addr)
    ensures r[|r| - |msg|..] == msg
  {
    var close := [RBracket];
    var tail := name + [Colon] + msg;
    var r := [LBracket] + addr + [RBracket] + name + [Colon] + msg;
    assert r == [LBracket] + (addr + close + tail);
    assert r[1..] == addr + (close + tail);
    if RBracket in addr then r
    else
      UpToCloseStopsAtClose(addr, close + tail);
      r
  }

  /** The line `who` sends back for one registered user: a broadcast-style
      line that carries its own terminator. */
  function WhoLine(addr: Str, name: Str): (r: Str)
    ensures |r| >= 1 && r[|r| - 1] == Newline
    ensures RBracket !in addr ==> SenderAddr(r) == Some(addr)
  {
    var r := BroadcastLine(addr, name, OnlineMarker);
    assert r[|r| - 1] == r[|r| - |OnlineMarker|..][|OnlineMarker| - 1];
    r
  }

  /** The confirmation of a successful rename: the fixed text, then the
      new name, then the terminator. */
  function RenamedLine(newName: Str): (r: Str)
    ensures |r| == |RenamedText| + |newName| + 1
    ensures r[..|RenamedText|] == RenamedText
    ensures r[|RenamedText|..|r| - 1] == newName && r[|r| - 1] == Newline
  {
    RenamedText + newName + [Newline]
  }

  /** A directed message as its target receives it: the sender's name,
      the fixed infix, then the content, then the terminator. */
  function DirectLine(sender: Str, content: Str): (r: Str)
    ensures |r| == |sender| + |SaysToYou| + |content| + 1
    ensures r[..|sender|] == sender
    ensures r[|sender|..|sender| + |SaysToYou|] == SaysToYou
    ensures r[|sender| + |SaysToYou|..|r| - 1] == content && r[|r| - 1] == Newline
  {
    sender + SaysToYou + content + [Newline]
  }

  /** What the writer of a connection puts on the wire for one mailbox line. */
  function Terminated(line: Str): Str
  {
    line + [Newline]
  }

  /** The line handed to the command router for a read of `data`: the read
      without its last byte, whatever that byte is. */
  function Frame(data: Str): (msg: Str)
    requires |data| >= 1
    ensures |msg| == |data| - 1
    ensures data == msg + [data[|data| - 1]]
  {
    data[..|data| - 1]
  }

  /** The bytes between the leading `[` of a line and the first `]`. The
      server never reads its own lines back; this is the reader's side of
      the broadcast format, the inverse that `BroadcastLine` is proved
      against. */
  function SenderAddr(line: Str): (r: Option<Str>)
  {
    if |line| == 0 || line[0] != LBracket then None
    else UpToClose(line[1..])
  }

  /** The bytes of `s` in front of its first `]`, if it has one. */
  function UpToClose(s: Str): (r: Option<Str>)
    ensures r.Some? ==> RBracket !in r.value
  {
    if s == [] then None
    else if s[0] == RBracket then Some([])
    else match UpToClose(s[1..])
      case None => None
      case Some(rest) => Some([s[0]] + rest)
  }

  /** A line read back through the server's own framing loses exactly the
      terminator the writer added. */
  lemma FrameTerminated(line: Str)
    ensures Frame(Terminated(line)) == line
  {
    assert Terminated(line)[..|line|] == line;
  }

  /** The last byte of a read is dropped whatever it is, so a read that
      does not end in a newline loses a byte of its text. */
  lemma {:induction false} FrameDropsLastByte(line: Str, b: byte)
    ensures Frame(line + [b]) == line
  {
    assert (line + [b])[..|line|] == line;
  }

  /** Text without `]` in front of a `]` is read back whole. */
  lemma {:induction false} UpToCloseStopsAtClose(a: Str, s: Str)
    requires RBracket !in a
    requires |s| >= 1 && s[0] == RBracket
    ensures UpToClose(a + s) == Some(a)
  {
    if a == [] {
      assert a + s == s;
    } else {
      UpToCloseStopsAtClose(a[1..], s);
      assert (a + s)[1..] == a[1..] + s;
      assert a == [a[0]] + a[1..];
    }
  }
}
