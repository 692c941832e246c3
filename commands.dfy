/**
  The command router's reading of one inbound line: which branch of the
  dispatch a line takes and which `|`-fields that branch uses. The guards
  are those of the source, on bytes: an exact `who`, then `rename|` with
  more than 7 bytes in all, then `to|` with more than 4 bytes in all;
  everything else is a chat line broadcast verbatim.
 */
module Commands {
  import opened GoString
  import opened Wire

  datatype Command =
    | Who
      /** `rename|<newName>`: the new name is the second `|`-field. */
    | Rename(newName: Str)
      /** `to|<target>|<content>`: the target is the second field; the
          content is the third field, `None` when the line has none. */
    | To(target: Str, content: Option<Str>)
      /** Anything else: a chat line, broadcast verbatim. */
    | Say(text: Str)

  /** The branch of the dispatch `msg` takes. */
  function Parse(msg: Str): (c: Command)
    ensures c.Say? ==> c.text == msg
    ensures c.Rename? ==> Field(msg, 1) == Some(c.newName)
    ensures c.To? ==> Field(msg, 1) == Some(c.target) && c.content == Field(msg, 2)
  {
    if msg == WhoCmd then Who
    else if |msg| > 7 && msg[..7] == RenamePrefix then
      assert msg[6] == Bar;
      Rename(Split(msg, Bar)[1])
    else if |msg| > 4 && msg[..3] == ToPrefix then
      assert msg[2] == Bar;
      To(Split(msg, Bar)[1], Field(msg, 2))
    else Say(msg)
  }

  /** Lines that look like commands but fail a guard are chat lines; the
      guards count bytes, so a one-character target that is not ASCII
      already passes the `to|` guard. */
  lemma GuardExamples()
    ensures Parse(RenamePrefix) == Say(RenamePrefix)                 // "rename|"
    ensures Parse(ToPrefix + [97]) == Say(ToPrefix + [97])           // "to|a"
    ensures Parse(ToPrefix + [Bar]) == Say(ToPrefix + [Bar])         // "to||"
    ensures Parse([87, 104, 111]) == Say([87, 104, 111])             // "Who"
    ensures Parse(WhoCmd + [32]) == Say(WhoCmd + [32])               // "who "
    ensures Parse(ToPrefix + Utf8("张")) == To(Utf8("张"), None)      // "to|张"
    ensures Parse(RenamePrefix + [Bar, 120]) == Rename([])            // "rename||x"
  {
    var zhang := Utf8("张");
    assert zhang == [0xE5, 0xBC, 0xA0];
    ParseToWithoutContent(zhang);
    ParseRename([], [Bar, 120]);
    assert RenamePrefix + [] + [Bar, 120] == RenamePrefix + [Bar, 120];
  }

  /** `rename|<name>`, optionally followed by more `|`-fields, renames to
      `name` exactly: the text up to the next `|`. */
  lemma {:induction false} ParseRename(name: Str, rest: Str)
    requires Bar !in name
    requires rest == [] || rest[0] == Bar
    requires |name| + |rest| >= 1
    ensures Parse(RenamePrefix + name + rest) == Rename(name)
  {
    var msg := RenamePrefix + name + rest;
    assert msg[..7] == RenamePrefix;
    assert msg != WhoCmd by { assert |msg| > 3; }
    assert msg == RenamePrefix[..6] + [Bar] + (name + rest);
    SplitAfterPiece(RenamePrefix[..6], name + rest, Bar);
    PieceBeforeSep(name, rest, Bar);
  }

  /** Conversely, a line routed to rename starts with `rename|` and the new
      name, which is followed by the end of the line or by `|`. */
  lemma {:induction false} RenameShape(msg: Str)
    requires Parse(msg).Rename?
    ensures var n := Parse(msg).newName;
      && Bar !in n
      && |msg| >= 7 + |n|
      && msg[..7 + |n|] == RenamePrefix + n
      && (|msg| == 7 + |n| || msg[7 + |n|] == Bar)
  {
    var n := Parse(msg).newName;
    var tail := msg[7..];
    assert msg == RenamePrefix[..6] + [Bar] + tail;
    SplitAfterPiece(RenamePrefix[..6], tail, Bar);
    assert n == Split(tail, Bar)[0];
    FirstPiece(tail, Bar);
    assert msg[..7 + |n|] == RenamePrefix + tail[..|n|];
  }

  /** The first piece of a split is a prefix, ended by the separator or by
      the end of the string. */
  lemma {:induction false} FirstPiece(s: Str, sep: byte)
    ensures var p := Split(s, sep)[0];
      && sep !in p
      && |p| <= |s| && s[..|p|] == p
      && (|p| == |s| || s[|p|] == sep)
  {
    if s != [] && s[0] != sep {
      FirstPiece(s[1..], sep);
    }
  }

  /** A line that passes the `to|` guard is routed to `to`. */
  lemma RoutedToTo(msg: Str)
    requires |msg| > 4 && msg[..3] == ToPrefix
    ensures msg == ToPrefix[..2] + [Bar] + msg[3..]
    ensures Parse(msg) == To(Split(msg, Bar)[1], Field(msg, 2))
  {
    assert msg[0] == ToPrefix[0];
  }

  /** `to|<target>|<content>` delivers exactly `content`, the third field:
      anything after a further `|` is dropped. */
  lemma {:induction false} ParseTo(target: Str, content: Str, rest: Str)
    requires Bar !in target && Bar !in content
    requires rest == [] || rest[0] == Bar
    requires |target| + |content| + |rest| >= 1
    ensures Parse(ToPrefix + target + [Bar] + content + rest) == To(target, Some(content))
  {
    var msg := ToPrefix + target + [Bar] + content + rest;
    var tail := content + rest;
    assert msg == ToPrefix[..2] + [Bar] + (target + [Bar] + tail);
    RoutedToTo(msg);
    SplitAfterPiece(ToPrefix[..2], target + [Bar] + tail, Bar);
    SplitAfterPiece(target, tail, Bar);
    PieceBeforeSep(content, rest, Bar);
  }

  /** The piece in front of the end of the string or of a separator. */
  lemma {:induction false} PieceBeforeSep(p: Str, rest: Str, sep: byte)
    requires sep !in p
    requires rest == [] || rest[0] == sep
    ensures Split(p + rest, sep)[0] == p
  {
    SplitPrefix(p, rest, sep);
    if rest != [] {
      assert rest == [] + [sep] + rest[1..];
      SplitAfterPiece([], rest[1..], sep);
    }
    assert p + [] == p;
  }

  /** `to|<target>` with no second `|` has no third field. */
  lemma {:induction false} ParseToWithoutContent(target: Str)
    requires Bar !in target
    requires |target| >= 2
    ensures Parse(ToPrefix + target) == To(target, None)
  {
    var msg := ToPrefix + target;
    assert msg[..3] == ToPrefix;
    RoutedToTo(msg);
    assert msg[3..] == target;
    SplitAfterPiece(ToPrefix[..2], target, Bar);
    SplitWithoutSep(target, Bar);
  }
}
