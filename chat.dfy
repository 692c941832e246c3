/**
  The chat server's registry and command logic, one atomic step at a time.

  A `Server` owns the registry `OnlineMap` from name to `User` and the
  queue `Message` of broadcast lines published but not yet fanned out. A
  `User` has a mutable `Name`, a fixed `Addr`, and two logs of output:
  `Direct`, what `SendMsg` wrote straight to its connection, and
  `Mailbox`, the broadcast lines it received on its channel, which its
  writer puts on the connection each followed by a newline (`Written`).

  The registry invariant `Server.Valid` is that every key names a user
  whose `Name` is that key; every step below keeps it.
 */
module Chat {
  import opened GoString
  import opened Wire
  import opened Commands
  import Seqs

  /** The error a connection read returns besides its byte count. */
  datatype ReadErr = NoError | EndOfFile | Failed

  /** What the read loop of a connection does after one read: read again,
      return, or (Go's index-out-of-range panic) bring the process down. */
  datatype ReadStep = Continue | Stop | Crash

  /** `order` lists every key of the registry exactly once, in the
      unspecified order Go's map iteration takes. */
  ghost predicate Enumerates(order: seq<Str>, keys: set<Str>)
  {
    && (forall i, j :: 0 <= i < j < |order| ==> order[i] != order[j])
    && (forall k :: k in keys <==> k in order)
  }

  /** An enumeration has exactly one element per key. */
  lemma {:induction false} EnumerationCount(order: seq<Str>, keys: set<Str>)
    requires Enumerates(order, keys)
    ensures |order| == |keys|
  {
    if order != [] {
      var last := order[|order| - 1];
      var front := order[..|order| - 1];
      assert Enumerates(front, keys - {last}) by {
        forall k ensures k in keys - {last} <==> k in front {
          if k in front {
            var i :| 0 <= i < |front| && front[i] == k;
            assert order[i] == k;
          }
          if k in order && k != last {
            var i :| 0 <= i < |order| && order[i] == k;
            assert front[i] == k;
          }
        }
      }
      EnumerationCount(front, keys - {last});
    }
  }

  /** Listing one more key extends an enumeration. */
  lemma EnumerationExtend(order: seq<Str>, keys: set<Str>, k: Str)
    requires Enumerates(order, keys) && k !in keys
    ensures Enumerates(order + [k], keys + {k})
  {
    forall x ensures x in keys + {k} <==> x in order + [k] {
      if x in order + [k] && x != k {
        var i :| 0 <= i < |order + [k]| && (order + [k])[i] == x;
        assert order[i] == x;
      }
    }
  }

  /** The lines `who` sends for the registry entries listed in `order`.
      The name in each line is the key, which in a valid registry is the
      `Name` of the user it maps to. */
  function WhoLines(m: map<Str, User>, order: seq<Str>): (lines: seq<Str>)
    requires forall i :: 0 <= i < |order| ==> order[i] in m
    ensures |lines| == |order|
  {
    if order == [] then []
    else
      var k := order[|order| - 1];
      WhoLines(m, order[..|order| - 1]) + [WhoLine(m[k].Addr, k)]
  }

  /** The `i`-th who line describes the `i`-th listed entry. */
  lemma {:induction false} WhoLinesAt(m: map<Str, User>, order: seq<Str>, i: nat)
    requires forall j :: 0 <= j < |order| ==> order[j] in m
    requires i < |order|
    ensures WhoLines(m, order)[i] == WhoLine(m[order[i]].Addr, order[i])
  {
    if i < |order| - 1 {
      WhoLinesAt(m, order[..|order| - 1], i);
    }
  }

  /** What a connection's writer has put on the wire for `lines`. */
  function TerminateAll(lines: seq<Str>): (w: seq<Str>)
    ensures |w| == |lines|
    ensures forall i :: 0 <= i < |w| ==>
      |w[i]| >= 1 && w[i][|w[i]| - 1] == Newline && Frame(w[i]) == lines[i]
  {
    if lines == [] then []
    else
      var last := lines[|lines| - 1];
      FrameTerminated(last);
      TerminateAll(lines[..|lines| - 1]) + [Terminated(last)]
  }

  /** Terminating lines one batch after another is terminating them all. */
  lemma {:induction false} TerminateAllAppend(a: seq<Str>, b: seq<Str>)
    ensures TerminateAll(a + b) == TerminateAll(a) + TerminateAll(b)
  {
    if b != [] {
      var front := b[..|b| - 1];
      TerminateAllAppend(a, front);
      assert (a + b)[..|a + b| - 1] == a + front;
      assert (a + b)[|a + b| - 1] == b[|b| - 1];
    } else {
      assert a + b == a;
    }
  }

  class User {
    var Name: Str
    const Addr: Str
    const server: Server
    /** Every string `SendMsg` wrote to the connection, in order. */
    var Direct: seq<Str>
    /** Every line received on the user's channel, in order. */
    var Mailbox: seq<Str>

    /** `NewUser`: name and address are both the connection's remote
        address; nothing has been sent or received yet. */
    constructor (remoteAddr: Str, server: Server)
      ensures Name == remoteAddr && Addr == remoteAddr
      ensures this.server == server
      ensures Direct == [] && Mailbox == []
    {
      Name := remoteAddr;
      Addr := remoteAddr;
      this.server := server;
      Direct := [];
      Mailbox := [];
    }

    /** What the writer goroutine has put on the connection for the
        mailbox: each line followed by a newline. */
    function Written(): (w: seq<Str>)
      reads this`Mailbox
      ensures |w| == |Mailbox|
      ensures forall i :: 0 <= i < |w| ==>
        |w[i]| >= 1 && w[i][|w[i]| - 1] == Newline && Frame(w[i]) == Mailbox[i]
    {
      TerminateAll(Mailbox)
    }

    /** `SendMsg`: a write straight to the connection. */
    method SendMsg(msg: Str)
      modifies this`Direct
      ensures Direct == old(Direct) + [msg]
    {
      Direct := Direct + [msg];
    }

    /** `Online`: registers under the current name, replacing whatever user
        held that name, and publishes the join line. */
    method Online()
      requires server.Valid()
      modifies server`OnlineMap, server`Message
      ensures server.Valid()
      ensures server.OnlineMap == old(server.OnlineMap)[Name := this]
      ensures server.Message == old(server.Message) + [BroadcastLine(Addr, Name, OnlineText)]
    {
      server.OnlineMap := server.OnlineMap[Name := this];
      server.BroadCast(this, OnlineText);
    }

    /** `Offline`: removes the key of the current name, whichever user it
        maps to, and publishes the leave line. */
    method Offline()
      requires server.Valid()
      modifies server`OnlineMap, server`Message
      ensures server.Valid()
      ensures server.OnlineMap == old(server.OnlineMap) - {Name}
      ensures server.Message == old(server.Message) + [BroadcastLine(Addr, Name, OfflineText)]
    {
      server.OnlineMap := server.OnlineMap - {Name};
      server.BroadCast(this, OfflineText);
    }

    /** The loop of the `who` command: one line per registry entry. */
    method SendWho() returns (order: seq<Str>)
      requires server.Valid()
      modifies this`Direct
      ensures Enumerates(order, server.OnlineMap.Keys)
      ensures Direct == old(Direct) + WhoLines(server.OnlineMap, order)
    {
      var m := server.OnlineMap;
      order := [];
      var todo := m.Keys;
      ghost var done: set<Str> := {};
      while todo != {}
        invariant done !! todo && done + todo == m.Keys
        invariant Enumerates(order, done)
        invariant forall i :: 0 <= i < |order| ==> order[i] in m
        invariant Direct == old(Direct) + WhoLines(m, order)
        decreases todo
      {
        var k :| k in todo;
        var u := m[k];
        assert u.Name == k;
        ghost var sent := WhoLines(m, order);
        SendMsg(WhoLine(u.Addr, u.Name));
        Seqs.AppendAssoc(old(Direct), sent, [WhoLine(u.Addr, k)]);
        EnumerationExtend(order, done, k);
        Seqs.DropLast(order, k);
        order, todo, done := order + [k], todo - {k}, done + {k};
      }
    }

    /** `DoMessage`: the command router. `ok` is false exactly when Go's
        index out of range at the third `|`-field panics. */
    method DoMessage(msg: Str) returns (ok: bool)
      requires server.Valid()
      modifies this`Name, this`Direct, server`OnlineMap, server`Message
      modifies server.OnlineMap.Values`Direct
      ensures server.Valid()
      ensures ok <==> !Panics(old(server.OnlineMap), msg)
      // Only `rename` touches the registry or the name, only a chat line
      // publishes, and nobody's mailbox changes.
      ensures !Parse(msg).Rename? ==> server.OnlineMap == old(server.OnlineMap) && Name == old(Name)
      ensures !Parse(msg).Say? ==> server.Message == old(server.Message)
      // Apart from a delivered `to`, nobody but the requester is written to.
      ensures !Delivers(old(server.OnlineMap), msg) ==>
        forall u :: u in old(server.OnlineMap.Values) && u != this ==> u.Direct == old(u.Direct)
      // who
      ensures Parse(msg) == Who ==>
        && (exists order :: Enumerates(order, server.OnlineMap.Keys) &&
              Direct == old(Direct) + WhoLines(server.OnlineMap, order))
        && |Direct| == |old(Direct)| + |server.OnlineMap|
      // rename
      ensures Parse(msg).Rename? && Parse(msg).newName in old(server.OnlineMap) ==>
        && server.OnlineMap == old(server.OnlineMap) && Name == old(Name)
        && Direct == old(Direct) + [NameInUse]
      ensures Parse(msg).Rename? && Parse(msg).newName !in old(server.OnlineMap) ==>
        && Name == Parse(msg).newName
        && server.OnlineMap == (old(server.OnlineMap) - {old(Name)})[Name := this]
        && Direct == old(Direct) + [RenamedLine(Name)]
      // to
      ensures Parse(msg).To? && Parse(msg).target == [] ==>
        Direct == old(Direct) + [BadToFormat]
      ensures Parse(msg).To? && Parse(msg).target != [] && Parse(msg).target !in old(server.OnlineMap) ==>
        Direct == old(Direct) + [NoSuchUser]
      ensures Panics(old(server.OnlineMap), msg) ==> Direct == old(Direct)
      ensures Parse(msg).To? && Parse(msg).target != [] && Parse(msg).target in old(server.OnlineMap)
              && Parse(msg).content == Some([]) ==>
        Direct == old(Direct) + [EmptyContent]
      ensures Delivers(old(server.OnlineMap), msg) ==>
        var target := old(server.OnlineMap[Parse(msg).target]);
        && target.Direct == old(target.Direct) + [DirectLine(Name, Parse(msg).content.value)]
        && (forall u :: u in old(server.OnlineMap.Values) && u != target ==> u.Direct == old(u.Direct))
        && (this != target ==> Direct == old(Direct))
      // chat
      ensures Parse(msg).Say? ==>
        && server.Message == old(server.Message) + [BroadcastLine(Addr, Name, msg)]
        && Direct == old(Direct)
    {
      ok := true;
      if msg == WhoCmd {
        var order := SendWho();
        EnumerationCount(order, server.OnlineMap.Keys);
      } else if |msg| > 7 && msg[..7] == RenamePrefix {
        assert msg[6] == Bar;
        Rename(Split(msg, Bar)[1]);
      } else if |msg| > 4 && msg[..3] == ToPrefix {
        assert msg[2] == Bar;
        ok := PrivateChat(Split(msg, Bar)[1], Field(msg, 2));
      } else {
        server.BroadCast(this, msg);
      }
    }

    /** The `rename|` branch of `DoMessage`: refused when the new name is a
        key already (the requester's own name included); otherwise the old
        key is deleted, the new one maps to this user, and `Name` follows. */
    method Rename(newName: Str)
      requires server.Valid()
      modifies this`Name, this`Direct, server`OnlineMap
      ensures server.Valid()
      ensures newName in old(server.OnlineMap) ==>
        && server.OnlineMap == old(server.OnlineMap) && Name == old(Name)
        && Direct == old(Direct) + [NameInUse]
      ensures newName !in old(server.OnlineMap) ==>
        && Name == newName
        && server.OnlineMap == (old(server.OnlineMap) - {old(Name)})[newName := this]
        && Direct == old(Direct) + [RenamedLine(newName)]
    {
      if newName in server.OnlineMap {
        SendMsg(NameInUse);
      } else {
        server.OnlineMap := server.OnlineMap - {Name};
        server.OnlineMap := server.OnlineMap[newName := this];
        Name := newName;
        SendMsg(RenamedLine(Name));
      }
    }

    /** The `to|` branch of `DoMessage`, given the second `|`-field and the
        third one if the line has it. The notices are tested in the
        source's order, and the third field is indexed only once the
        target is known to exist: that is where a missing field panics. */
    method PrivateChat(remoteName: Str, content: Option<Str>) returns (ok: bool)
      requires server.Valid()
      modifies this`Direct, server.OnlineMap.Values`Direct
      ensures ok <==> !(remoteName != [] && remoteName in server.OnlineMap && content == None)
      ensures remoteName == [] ==> Direct == old(Direct) + [BadToFormat]
      ensures remoteName != [] && remoteName !in server.OnlineMap ==> Direct == old(Direct) + [NoSuchUser]
      ensures remoteName != [] && remoteName in server.OnlineMap && content == None ==>
        Direct == old(Direct)
      ensures remoteName != [] && remoteName in server.OnlineMap && content == Some([]) ==>
        Direct == old(Direct) + [EmptyContent]
      ensures !(remoteName != [] && remoteName in server.OnlineMap && content.Some? && content.value != []) ==>
        forall u :: u in server.OnlineMap.Values && u != this ==> u.Direct == old(u.Direct)
      ensures remoteName != [] && remoteName in server.OnlineMap && content.Some? && content.value != [] ==>
        var target := server.OnlineMap[remoteName];
        && target.Direct == old(target.Direct) + [DirectLine(Name, content.value)]
        && (forall u :: u in server.OnlineMap.Values && u != target ==> u.Direct == old(u.Direct))
        && (this != target ==> Direct == old(Direct))
    {
      ok := true;
      if remoteName == [] {
        SendMsg(BadToFormat);
        return;
      }
      if remoteName !in server.OnlineMap {
        SendMsg(NoSuchUser);
        return;
      }
      var remoteUser := server.OnlineMap[remoteName];
      if content == None {
        ok := false;
        return;
      }
      if content.value == [] {
        SendMsg(EmptyContent);
        return;
      }
      remoteUser.SendMsg(DirectLine(Name, content.value));
    }
  }

  /** `msg` is a `to` whose target is registered but which has no third
      `|`-field: the source indexes past the end of the split. */
  ghost predicate Panics(m: map<Str, User>, msg: Str)
  {
    var c := Parse(msg);
    c.To? && c.target != [] && c.target in m && c.content == None
  }

  /** `msg` is a `to` that reaches its target. */
  ghost predicate Delivers(m: map<Str, User>, msg: Str)
  {
    var c := Parse(msg);
    c.To? && c.target != [] && c.target in m && c.content.Some? && c.content.value != []
  }

  class Server {
    const Ip: Str
    const Port: int
    /** The registry of online users. */
    var OnlineMap: map<Str, User>
    /** Broadcast lines published and not yet fanned out, oldest first. */
    var Message: seq<Str>

    /** Every key names a user whose `Name` is that key. Then no user is
        registered under two keys, so ranging over the registry's entries
        reaches each registered user once. */
    ghost predicate Valid()
      reads this`OnlineMap, OnlineMap.Values`Name
      ensures Valid() ==> forall k1, k2 ::
        k1 in OnlineMap && k2 in OnlineMap && OnlineMap[k1] == OnlineMap[k2] ==> k1 == k2
    {
      forall k :: k in OnlineMap ==> OnlineMap[k].Name == k
    }

    /** `NewServer`: no user online, nothing published. */
    constructor (ip: Str, port: int)
      ensures Ip == ip && Port == port
      ensures OnlineMap == map[] && Message == []
      ensures Valid()
    {
      Ip := ip;
      Port := port;
      OnlineMap := map[];
      Message := [];
    }

    /** `BroadCast`: publishes `[Addr]Name:msg` for the user as it is now. */
    method BroadCast(user: User, msg: Str)
      modifies this`Message
      ensures Message == old(Message) + [BroadcastLine(user.Addr, user.Name, msg)]
    {
      Message := Message + [BroadcastLine(user.Addr, user.Name, msg)];
    }

    /** One turn of `ListenMessage`: takes the oldest published line and
        puts it once into the mailbox of every registered user. */
    method FanOut()
      requires Valid()
      requires Message != []
      modifies this`Message, OnlineMap.Values`Mailbox
      ensures Message == old(Message)[1..]
      ensures forall k :: k in OnlineMap ==>
        OnlineMap[k].Mailbox == old(OnlineMap[k].Mailbox) + [old(Message)[0]]
    {
      var msg := Message[0];
      Message := Message[1..];
      var todo := OnlineMap.Keys;
      while todo != {}
        invariant Message == old(Message)[1..]
        invariant todo <= OnlineMap.Keys
        invariant forall k :: k in OnlineMap ==>
          OnlineMap[k].Mailbox == old(OnlineMap[k].Mailbox) + (if k in todo then [] else [msg])
        decreases todo
      {
        var k :| k in todo;
        var cli := OnlineMap[k];
        cli.Mailbox := cli.Mailbox + [msg];
        todo := todo - {k};
      }
    }

    /** `ListenMessage` until nothing is pending: every registered user
        receives every published line once, in publish order. */
    method ListenMessage()
      requires Valid()
      modifies this`Message, OnlineMap.Values`Mailbox
      ensures Message == []
      ensures forall k :: k in OnlineMap ==>
        OnlineMap[k].Mailbox == old(OnlineMap[k].Mailbox) + old(Message)
      ensures forall k :: k in OnlineMap ==>
        OnlineMap[k].Written() == old(OnlineMap[k].Written()) + TerminateAll(old(Message))
    {
      ghost var pending := Message;
      ghost var done: nat := 0;
      while Message != []
        invariant Valid()
        invariant done <= |pending| && Message == pending[done..]
        invariant forall k :: k in OnlineMap ==>
          OnlineMap[k].Mailbox == old(OnlineMap[k].Mailbox) + pending[..done]
        decreases |Message|
      {
        Seqs.TakeOneMore(pending, done);
        Seqs.DropOneMore(pending, done);
        FanOut();
        forall k | k in OnlineMap
          ensures OnlineMap[k].Mailbox == old(OnlineMap[k].Mailbox) + pending[..done + 1]
        {
          Seqs.AppendAssoc(old(OnlineMap[k].Mailbox), pending[..done], [pending[done]]);
        }
        done := done + 1;
      }
      Seqs.TakeAll(pending);
      forall k | k in OnlineMap
        ensures OnlineMap[k].Written() == old(OnlineMap[k].Written()) + TerminateAll(pending)
      {
        TerminateAllAppend(old(OnlineMap[k].Mailbox), pending);
      }
    }

    /** The start of `Handler`: a new user for the connection, registered
        and announced before anything is read from it. */
    method Handler(remoteAddr: Str) returns (user: User)
      requires Valid()
      modifies this`OnlineMap, this`Message
      ensures Valid()
      ensures fresh(user) && user.server == this
      ensures user.Name == remoteAddr && user.Addr == remoteAddr
      ensures user.Direct == [] && user.Mailbox == []
      ensures OnlineMap == old(OnlineMap)[remoteAddr := user]
      ensures Message == old(Message) + [BroadcastLine(remoteAddr, remoteAddr, OnlineText)]
    {
      user := new User(remoteAddr, this);
      user.Online();
    }

    /** One turn of the read loop of `Handler`, for a read that returned
        the bytes `data` and the error `err`. */
    method HandleRead(user: User, data: Str, err: ReadErr) returns (step: ReadStep)
      requires Valid() && user.server == this
      requires |data| <= ReadBufferSize
      modifies user`Name, user`Direct, this`OnlineMap, this`Message
      modifies OnlineMap.Values`Direct
      ensures Valid()
      // Peer closed: the user goes offline and the loop ends.
      ensures |data| == 0 ==>
        && step == Stop
        && OnlineMap == old(OnlineMap) - {user.Name}
        && Message == old(Message) + [BroadcastLine(user.Addr, user.Name, OfflineText)]
        && user.Name == old(user.Name) && user.Direct == old(user.Direct)
        && (forall u :: u in old(OnlineMap.Values) ==> u.Direct == old(u.Direct))
      // Any other error ends the loop with nothing handled and no leave line.
      ensures |data| > 0 && err == Failed ==>
        && step == Stop
        && OnlineMap == old(OnlineMap) && Message == old(Message)
        && user.Name == old(user.Name) && user.Direct == old(user.Direct)
        && (forall u :: u in old(OnlineMap.Values) ==> u.Direct == old(u.Direct))
      // Otherwise the read minus its last byte goes to the router.
      ensures |data| > 0 && err != Failed ==>
        && (step == Crash <==> Panics(old(OnlineMap), Frame(data)))
        && (step != Crash ==> step == Continue)
        && (!Parse(Frame(data)).Rename? ==> OnlineMap == old(OnlineMap) && user.Name == old(user.Name))
        && (Parse(Frame(data)).Rename? ==>
              var n := Parse(Frame(data)).newName;
              && (n in old(OnlineMap) ==> OnlineMap == old(OnlineMap) && user.Name == old(user.Name))
              && (n !in old(OnlineMap) ==>
                    user.Name == n && OnlineMap == (old(OnlineMap) - {old(user.Name)})[n := user]))
        && (!Delivers(old(OnlineMap), Frame(data)) ==>
              forall u :: u in old(OnlineMap.Values) && u != user ==> u.Direct == old(u.Direct))
        && (Delivers(old(OnlineMap), Frame(data)) ==>
              var target := old(OnlineMap[Parse(Frame(data)).target]);
              && target.Direct == old(target.Direct) + [DirectLine(user.Name, Parse(Frame(data)).content.value)]
              && (forall u :: u in old(OnlineMap.Values) && u != target ==> u.Direct == old(u.Direct)))
        && (Parse(Frame(data)).Say? ==>
              Message == old(Message) + [BroadcastLine(user.Addr, user.Name, Frame(data))])
        && (!Parse(Frame(data)).Say? ==> Message == old(Message))
    {
      if |data| == 0 {
        user.Offline();
        return Stop;
      }
      if err == Failed {
        return Stop;
      }
      var msg := data[..|data| - 1];
      var ok := user.DoMessage(msg);
      step := if ok then Continue else Crash;
    }
  }

  /** A connection sees its own join line: it is registered before the
      line is fanned out. */
  method JoinSeesOwnNotice(server: Server, remoteAddr: Str) returns (user: User)
    requires server.Valid() && server.Message == []
    modifies server`OnlineMap, server`Message, server.OnlineMap.Values`Mailbox
    ensures user.Mailbox == [BroadcastLine(remoteAddr, remoteAddr, OnlineText)]
    ensures user.Written() == [BroadcastLine(remoteAddr, remoteAddr, OnlineText) + [Newline]]
  {
    user := server.Handler(remoteAddr);
    assert remoteAddr in server.OnlineMap && server.OnlineMap[remoteAddr] == user;
    server.ListenMessage();
    assert server.OnlineMap[remoteAddr] == user;
  }

  /** Moving a registered user to another key registers no one new. */
  lemma RebindKeepsUsers(m: map<Str, User>, from: Str, to: Str, u: User)
    requires from in m && m[from] == u
    ensures ((m - {from})[to := u]).Values <= m.Values
  {
    forall v | v in ((m - {from})[to := u]).Values ensures v in m.Values {
      var k :| k in (m - {from})[to := u] && (m - {from})[to := u][k] == v;
      if k != to {
        assert m[k] == v;
      }
    }
  }

  /** Two users ask for the same free name, one after the other: the first
      gets it, the second is told the name is in use, and the name stays
      with the first. */
  method SecondRenameRefused(server: Server, a: User, b: User, name: Str)
    requires server.Valid() && a.server == server && b.server == server
    requires a.Name in server.OnlineMap && server.OnlineMap[a.Name] == a
    requires b.Name in server.OnlineMap && server.OnlineMap[b.Name] == b
    requires a != b
    requires name != [] && Bar !in name && name !in server.OnlineMap
    modifies a`Name, a`Direct, b`Name, b`Direct, server`OnlineMap, server`Message
    modifies server.OnlineMap.Values`Direct
    ensures server.Valid()
    ensures server.OnlineMap == (old(server.OnlineMap) - {old(a.Name)})[name := a]
    ensures a.Name == name && a.Direct == old(a.Direct) + [RenamedLine(name)]
    ensures b.Name == old(b.Name) && b.Direct == old(b.Direct) + [NameInUse]
  {
    var msg := RenamePrefix + name;
    ghost var before := server.OnlineMap;
    ParseRename(name, []);
    assert RenamePrefix + name + [] == msg;
    assert Parse(msg) == Rename(name);
    var ok := a.DoMessage(msg);
    assert name in server.OnlineMap && server.OnlineMap[name] == a;
    RebindKeepsUsers(before, old(a.Name), name, a);
    ok := b.DoMessage(msg);
  }
}
