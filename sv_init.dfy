// The server's configstring table and client slots (sv_init.cpp): setting,
// reading and interning configstrings, the chunked transmission of long
// values, and the clamping and reallocation of the client array.
module ServerInit {
  import opened Text
  import opened Ghoul2Types

  /** Size of the configstring table. */
  const MAX_CONFIGSTRINGS: int := 1024
  const MAX_STRING_CHARS: int := 1024
  /** Upper bound of sv_maxclients. */
  const MAX_CLIENTS: int := 32
  /** The configstring holding the server info. */
  const CS_SERVERINFO: int := 0
  /** maxChunkSize of SV_SetConfigstring: values this long or longer go out in pieces. */
  const MAX_CHUNK_SIZE: int := MAX_STRING_CHARS - 24
  /** Snapshots kept per client by the network layer. */
  const PACKET_BACKUP: int := 32
  /** Characters per piece: the chunk buffer keeps one byte for the terminator. */
  const PIECE_CHARS: int := MAX_CHUNK_SIZE - 1

  datatype ServerState = SS_DEAD | SS_LOADING | SS_GAME

  /** Client connection states, in increasing order. */
  datatype ClientState = CS_FREE | CS_ZOMBIE | CS_CONNECTED | CS_PRIMED | CS_ACTIVE

  function StateLevel(s: ClientState): int
  {
    match s
    case CS_FREE => 0
    case CS_ZOMBIE => 1
    case CS_CONNECTED => 2
    case CS_PRIMED => 3
    case CS_ACTIVE => 4
  }

  /**
   * A client slot: its state, whether its game entity is flagged
   * SVF_NOSERVERINFO, and the rest of its data.
   */
  datatype Client = Client(state: ClientState, noServerInfo: bool, name: string, userinfo: string)

  /** A slot cleared with Com_Memset. */
  const ZeroClient: Client := Client(CS_FREE, false, "", "")

  predicate Connected(c: Client) { StateLevel(c.state) >= StateLevel(CS_CONNECTED) }

  /** The commands SV_SetConfigstring hands to SV_SendServerCommand. */
  datatype ChunkTag = Bcs0 | Bcs1 | Bcs2
  datatype ServerCommand =
    | Cs(client: int, index: int, value: string)
    | Bcs(client: int, tag: ChunkTag, index: int, piece: string)

  // ---------------------------------------------------------------------
  // The chunk plan of SV_SetConfigstring

  /** The pieces sent for `val` from offset `sent` on; the first piece is
      bcs0, a piece with fewer than maxChunkSize characters left is bcs2. */
  function ChunksFrom(client: int, index: int, val: string, sent: nat): seq<ServerCommand>
    decreases |val| - sent
  {
    if sent >= |val| then []
    else
      var remaining := |val| - sent;
      var tag := if sent == 0 then Bcs0 else if remaining < MAX_CHUNK_SIZE then Bcs2 else Bcs1;
      [Bcs(client, tag, index, CopyBounded(val[sent..], MAX_CHUNK_SIZE))] +
      ChunksFrom(client, index, val, sent + PIECE_CHARS)
  }

  /** The characters a list of commands carries, in order. */
  function Payload(cmds: seq<ServerCommand>): string
  {
    if |cmds| == 0 then [] else Chars(cmds[0]) + Payload(cmds[1..])
  }

  function Chars(cmd: ServerCommand): string
  {
    match cmd
    case Cs(_, _, v) => v
    case Bcs(_, _, _, p) => p
  }

  lemma PayloadAppend(a: seq<ServerCommand>, b: seq<ServerCommand>)
    ensures Payload(a + b) == Payload(a) + Payload(b)
  {
    if a != [] {
      assert (a + b)[0] == a[0];
      assert (a + b)[1..] == a[1..] + b;
      PayloadAppend(a[1..], b);
      assert Payload(a + b) == Chars(a[0]) + Payload(a[1..] + b);
    } else {
      assert a + b == b;
    }
  }

  /** The pieces put back together give the value from `sent` on. */
  lemma {:induction false} ChunksReassemble(client: int, index: int, val: string, sent: nat)
    requires sent <= |val|
    ensures Payload(ChunksFrom(client, index, val, sent)) == val[sent..]
    decreases |val| - sent
  {
    if sent < |val| {
      var piece := CopyBounded(val[sent..], MAX_CHUNK_SIZE);
      var rest := ChunksFrom(client, index, val, sent + PIECE_CHARS);
      var cmds := ChunksFrom(client, index, val, sent);
      assert cmds[1..] == rest;
      if sent + PIECE_CHARS <= |val| {
        ChunksReassemble(client, index, val, sent + PIECE_CHARS);
        assert piece == val[sent..sent + PIECE_CHARS];
        assert val[sent..] == val[sent..sent + PIECE_CHARS] + val[sent + PIECE_CHARS..];
      } else {
        assert rest == [];
        assert piece == val[sent..];
      }
    }
  }

  /** Every piece is a `Bcs` for this client and index with between 1 and
      maxChunkSize - 1 characters; pieces after the first are bcs1 except
      the last, which is bcs2. */
  lemma {:induction false} ChunksShapeFrom(client: int, index: int, val: string, sent: nat)
    requires 0 < sent < |val|
    ensures var cs := ChunksFrom(client, index, val, sent);
            |cs| >= 1 && cs[|cs| - 1].Bcs? && cs[|cs| - 1].tag == Bcs2 &&
            (forall k :: 0 <= k < |cs| ==>
               cs[k].Bcs? && cs[k].client == client && cs[k].index == index &&
               1 <= |cs[k].piece| <= PIECE_CHARS) &&
            (forall k :: 0 <= k < |cs| - 1 ==> cs[k].tag == Bcs1)
    decreases |val| - sent
  {
    var cs := ChunksFrom(client, index, val, sent);
    var rest := ChunksFrom(client, index, val, sent + PIECE_CHARS);
    assert cs[1..] == rest;
    if sent + PIECE_CHARS < |val| {
      ChunksShapeFrom(client, index, val, sent + PIECE_CHARS);
      forall k | 1 <= k < |cs|
        ensures cs[k] == rest[k - 1]
      {
      }
    } else {
      assert |cs| == 1;
    }
  }

  /** A value of at least maxChunkSize characters goes out as two or more
      pieces: bcs0 first, bcs2 last, bcs1 between, none longer than
      maxChunkSize - 1. */
  lemma ChunksShape(client: int, index: int, val: string)
    requires |val| >= MAX_CHUNK_SIZE
    ensures var cs := ChunksFrom(client, index, val, 0);
            |cs| >= 2 && cs[0].Bcs? && cs[0].tag == Bcs0 && cs[|cs| - 1].Bcs? && cs[|cs| - 1].tag == Bcs2 &&
            (forall k :: 0 <= k < |cs| ==>
               cs[k].Bcs? && cs[k].client == client && cs[k].index == index &&
               1 <= |cs[k].piece| <= PIECE_CHARS) &&
            (forall k :: 0 < k < |cs| - 1 ==> cs[k].tag == Bcs1)
  {
    var cs := ChunksFrom(client, index, val, 0);
    var rest := ChunksFrom(client, index, val, PIECE_CHARS);
    ChunksShapeFrom(client, index, val, PIECE_CHARS);
    assert cs[1..] == rest;
    forall k | 1 <= k < |cs|
      ensures cs[k] == rest[k - 1]
    {
    }
  }

  /** The number of pieces is the length over maxChunkSize - 1, rounded up. */
  lemma {:induction false} ChunksCount(client: int, index: int, val: string, sent: nat)
    requires sent <= |val|
    ensures |ChunksFrom(client, index, val, sent)| == (|val| - sent + PIECE_CHARS - 1) / PIECE_CHARS
    decreases |val| - sent
  {
    if sent < |val| {
      if sent + PIECE_CHARS <= |val| {
        ChunksCount(client, index, val, sent + PIECE_CHARS);
      }
    }
  }

  /** What one client is sent: the pieces of a long value, else one `cs`. */
  function ClientCommands(client: int, index: int, val: string): seq<ServerCommand>
  {
    if |val| >= MAX_CHUNK_SIZE then ChunksFrom(client, index, val, 0) else [Cs(client, index, val)]
  }

  /** Whichever way it goes out, a client receives exactly the value. */
  lemma ClientReceivesValue(client: int, index: int, val: string)
    ensures Payload(ClientCommands(client, index, val)) == val
    ensures forall k :: 0 <= k < |ClientCommands(client, index, val)| ==>
              ClientCommands(client, index, val)[k].client == client &&
              ClientCommands(client, index, val)[k].index == index
  {
    if |val| >= MAX_CHUNK_SIZE {
      ChunksReassemble(client, index, val, 0);
      ChunksShape(client, index, val);
    } else {
      assert Payload([Cs(client, index, val)]) == val + Payload([]);
    }
  }

  // ---------------------------------------------------------------------
  // Broadcast

  /** A client that gets configstring updates: at least primed, and not a
      SVF_NOSERVERINFO client for the server info string. */
  predicate Receives(c: Client, index: int)
  {
    StateLevel(c.state) >= StateLevel(CS_PRIMED) && !(index == CS_SERVERINFO && c.noServerInfo)
  }

  /** What the update loop sends to the client in slot `slot`. */
  function Share(c: Client, slot: int, index: int, val: string): seq<ServerCommand>
  {
    if Receives(c, index) then ClientCommands(slot, index, val) else []
  }

  /** The shares of all slots, in slot order. */
  function Shares(clients: seq<Client>, index: int, val: string): (r: seq<seq<ServerCommand>>)
    ensures |r| == |clients|
  {
    seq(|clients|, k requires 0 <= k < |clients| => Share(clients[k], k, index, val))
  }

  /** The shares of the first `n` slots, one after another. */
  function Gather(shares: seq<seq<ServerCommand>>, n: nat): seq<ServerCommand>
    requires n <= |shares|
  {
    if n == 0 then [] else Gather(shares, n - 1) + shares[n - 1]
  }

  /** The commands the update loop sends to the first `n` clients. */
  function Broadcast(clients: seq<Client>, index: int, val: string, n: nat): seq<ServerCommand>
    requires n <= |clients|
  {
    Gather(Shares(clients, index, val), n)
  }

  /** The commands addressed to client `j`. */
  function For(cmds: seq<ServerCommand>, j: int): seq<ServerCommand>
  {
    if |cmds| == 0 then []
    else (if cmds[0].client == j then [cmds[0]] else []) + For(cmds[1..], j)
  }

  lemma ForAppend(a: seq<ServerCommand>, b: seq<ServerCommand>, j: int)
    ensures For(a + b, j) == For(a, j) + For(b, j)
  {
    if a != [] {
      assert (a + b)[0] == a[0];
      assert (a + b)[1..] == a[1..] + b;
      ForAppend(a[1..], b, j);
      assert For(a + b, j) == (if a[0].client == j then [a[0]] else []) + For(a[1..] + b, j);
    } else {
      assert a + b == b;
    }
  }

  lemma {:induction false} ForUniform(cmds: seq<ServerCommand>, c: int, j: int)
    requires forall k :: 0 <= k < |cmds| ==> cmds[k].client == c
    ensures For(cmds, j) == if c == j then cmds else []
    decreases |cmds|
  {
    if cmds != [] {
      ForUniform(cmds[1..], c, j);
      if c == j {
        assert cmds == [cmds[0]] + cmds[1..];
      }
    }
  }

  /** Every share is addressed to its own slot. */
  predicate Addressed(shares: seq<seq<ServerCommand>>)
  {
    forall k, m :: 0 <= k < |shares| && 0 <= m < |shares[k]| ==> shares[k][m].client == k
  }

  lemma SharesAddressed(clients: seq<Client>, index: int, val: string)
    ensures Addressed(Shares(clients, index, val))
  {
    var shares: seq<seq<ServerCommand>> := Shares(clients, index, val);
    forall k: int, m: int | 0 <= k < |shares| && 0 <= m < |shares[k]|
      ensures shares[k][m].client == k
    {
      ClientReceivesValue(k, index, val);
    }
  }

  /** Each client receives the whole value when it qualifies and nothing
      otherwise. */
  lemma BroadcastFor(clients: seq<Client>, index: int, val: string, n: nat, j: int)
    requires n <= |clients|
    ensures For(Broadcast(clients, index, val, n), j) ==
            if 0 <= j < n && Receives(clients[j], index) then ClientCommands(j, index, val) else []
  {
    var shares := Shares(clients, index, val);
    SharesAddressed(clients, index, val);
    if 0 <= j < n {
      GatherPresent(shares, n, j);
      assert shares[j] == Share(clients[j], j, index, val);
    } else {
      GatherAbsent(shares, n, j);
    }
  }

  /** Slot `j` sees all of slot `k`'s share when it is `k`, and none of it
      otherwise. */
  lemma ShareFor(shares: seq<seq<ServerCommand>>, k: int, j: int)
    requires Addressed(shares) && 0 <= k < |shares|
    ensures For(shares[k], j) == if k == j then shares[k] else []
  {
    ForUniform(shares[k], k, j);
  }

  /** A slot outside the first `n` is sent nothing by them. */
  lemma {:induction false} GatherAbsent(shares: seq<seq<ServerCommand>>, n: nat, j: int)
    requires n <= |shares| && Addressed(shares) && !(0 <= j < n)
    ensures For(Gather(shares, n), j) == []
  {
    if n > 0 {
      var prefix := Gather(shares, n - 1);
      var whole := Gather(shares, n);
      ForAppend(prefix, shares[n - 1], j);
      ShareFor(shares, n - 1, j);
      GatherAbsent(shares, n - 1, j);
      assert For(whole, j) == [];
    }
  }

  /** A slot among the first `n` is sent exactly its share. */
  lemma {:induction false} GatherPresent(shares: seq<seq<ServerCommand>>, n: nat, j: int)
    requires n <= |shares| && Addressed(shares) && 0 <= j < n
    ensures For(Gather(shares, n), j) == shares[j]
  {
    var prefix := Gather(shares, n - 1);
    var whole := Gather(shares, n);
    ForAppend(prefix, shares[n - 1], j);
    ShareFor(shares, n - 1, j);
    if j == n - 1 {
      GatherAbsent(shares, n - 1, j);
      assert For(whole, j) == shares[j];
    } else {
      GatherPresent(shares, n - 1, j);
      assert For(whole, j) == For(prefix, j);
    }
  }

  // ---------------------------------------------------------------------
  // SV_AddConfigstring's scan

  /** The name SV_AddConfigstring works with: none for a null or empty name,
      one leading slash or backslash removed, none if nothing remains. */
  function AddName(name: Option<string>): (r: Option<string>)
    ensures r.Some? ==> name.Some? && |name.value| > 0 && |r.value| > 0 &&
                        (r.value == name.value || (name.value[0] in {'/', '\\'} && r.value == name.value[1..]))
    ensures name.Some? && |name.value| > 0 && name.value[0] !in {'/', '\\'} ==> r == name
  {
    if name.None? || |name.value| == 0 then None
    else if name.value[0] == '/' || name.value[0] == '\\' then
      (if |name.value| == 1 then None else Some(name.value[1..]))
    else name
  }

  datatype AddOutcome = Found(offset: int) | Insert(slot: int) | Full

  predicate SlotsPresent(cs: seq<Option<string>>, start: int, max: int)
  {
    max > 1 ==> 0 <= start && start + max <= |cs| && forall k :: start + 1 <= k < start + max ==> cs[k].Some?
  }

  /** The scan from offset `i`: the first empty slot, or the first slot
      equal to `name` ignoring case, or neither. */
  function ScanFrom(cs: seq<Option<string>>, name: string, start: int, max: int, i: int): (r: AddOutcome)
    requires SlotsPresent(cs, start, max) && 1 <= i
    ensures r.Found? ==> i <= r.offset < max && SameIgnoringCase(cs[start + r.offset].value, name) &&
                         |cs[start + r.offset].value| > 0
    ensures r.Insert? ==> start + i <= r.slot < start + max && cs[r.slot].value == ""
    ensures r.Full? ==> forall k :: start + i <= k < start + max ==>
                          |cs[k].value| > 0 && !SameIgnoringCase(cs[k].value, name)
    ensures forall k :: start + i <= k < start + max &&
                        (r.Found? ==> k < start + r.offset) && (r.Insert? ==> k < r.slot) ==>
              |cs[k].value| > 0 && !SameIgnoringCase(cs[k].value, name)
    decreases max - i
  {
    if i >= max then Full
    else if |cs[start + i].value| == 0 then Insert(start + i)
    else if SameIgnoringCase(cs[start + i].value, name) then Found(i)
    else ScanFrom(cs, name, start, max, i + 1)
  }

  /** Once inserted, a second scan for the same name finds it there. */
  lemma {:induction false} InsertThenFound(cs: seq<Option<string>>, name: string, start: int, max: int, i: int)
    requires SlotsPresent(cs, start, max) && 1 <= i && |name| > 0
    requires ScanFrom(cs, name, start, max, i).Insert?
    ensures SlotsPresent(cs[ScanFrom(cs, name, start, max, i).slot := Some(name)], start, max)
    ensures ScanFrom(cs[ScanFrom(cs, name, start, max, i).slot := Some(name)], name, start, max, i) ==
            Found(ScanFrom(cs, name, start, max, i).slot - start)
    decreases max - i
  {
    var k := ScanFrom(cs, name, start, max, i).slot;
    var cs' := cs[k := Some(name)];
    if k != start + i {
      InsertThenFound(cs, name, start, max, i + 1);
    } else {
      assert SameIgnoringCase(cs'[start + i].value, name);
    }
  }

  /** What SV_AddConfigstring returns for a scan outcome, as written: the
      offset of a match, and 0 both for a full range and for a new name. */
  function AddResultAsWritten(o: AddOutcome): int
  {
    if o.Found? then o.offset else 0
  }

  /** The evidently intended result: the offset of the slot that now holds
      the name, whether it was found or just stored. */
  function AddResultIntended(o: AddOutcome, start: int): int
  {
    match o
    case Found(i) => i
    case Insert(k) => k - start
    case Full => 0
  }

  /** As written, the first call for a new name yields 0, the value also
      used for "no name" and "no room", and a second call for the same
      name yields its offset. */
  lemma AddAsWrittenForgetsNewSlot()
    ensures var cs := seq(MAX_CONFIGSTRINGS, _ => Some(""));
            ScanFrom(cs, "x", 0, 2, 1) == Insert(1) &&
            AddResultAsWritten(ScanFrom(cs, "x", 0, 2, 1)) == 0 &&
            AddResultAsWritten(ScanFrom(cs[1 := Some("x")], "x", 0, 2, 1)) == 1
  {
    var cs := seq(MAX_CONFIGSTRINGS, _ => Some(""));
    assert cs[1].value == "";
    var cs' := cs[1 := Some("x")];
    assert SameIgnoringCase(cs'[1].value, "x");
  }

  /** The intended result is the same for the first call and every later
      one: it is what a repeated call returns, and it is nonzero whenever the
      name is in the table afterwards. */
  lemma AddIntendedIsStable(cs: seq<Option<string>>, name: string, start: int, max: int)
    requires SlotsPresent(cs, start, max) && |name| > 0
    ensures var o := ScanFrom(cs, name, start, max, 1);
            var after := if o.Insert? then cs[o.slot := Some(name)] else cs;
            SlotsPresent(after, start, max) &&
            AddResultIntended(o, start) == AddResultAsWritten(ScanFrom(after, name, start, max, 1)) &&
            (o.Full? <==> AddResultIntended(o, start) == 0)
  {
    var o := ScanFrom(cs, name, start, max, 1);
    if o.Insert? {
      InsertThenFound(cs, name, start, max, 1);
    }
  }

  // ---------------------------------------------------------------------
  // SV_BoundMaxClients

  /** The clamp of SV_BoundMaxClients; the minimum is tested first. */
  function Bound(value: int, minimum: int): (r: int)
    ensures value < minimum ==> r == minimum
    ensures minimum <= value <= MAX_CLIENTS ==> r == value
    ensures minimum <= value && value > MAX_CLIENTS ==> r == MAX_CLIENTS
  {
    if value < minimum then minimum else if value > MAX_CLIENTS then MAX_CLIENTS else value
  }

  /** With a minimum no higher than MAX_CLIENTS the result lies between the
      two, and bounding again changes nothing. */
  lemma BoundRange(value: int, minimum: int)
    requires minimum <= MAX_CLIENTS
    ensures minimum <= Bound(value, minimum) <= MAX_CLIENTS
    ensures Bound(Bound(value, minimum), minimum) == Bound(value, minimum)
  {
  }

  /** A minimum above MAX_CLIENTS wins only over smaller values: the second
      test lowers anything above it to MAX_CLIENTS. */
  lemma BoundMinimumFirst(value: int, minimum: int)
    requires minimum > MAX_CLIENTS && value >= minimum
    ensures Bound(value, minimum) == MAX_CLIENTS < minimum
  {
  }

  /** 1 + the highest index of a connected client among the first `n`, 1 when there is none. */
  function ClientCount(clients: seq<Client>, n: nat): (r: int)
    requires n <= |clients|
    ensures 1 <= r && (n > 0 ==> r <= n) && (n == 0 ==> r == 1)
    ensures forall i :: 0 <= i < n && Connected(clients[i]) ==> i < r
    ensures r == 1 || Connected(clients[r - 1])
  {
    if n == 0 then 1
    else if Connected(clients[n - 1]) && n - 1 > 0 then n
    else ClientCount(clients, n - 1)
  }

  /** The client array after a reallocation to `newMax` slots: connected
      clients below `count` keep their index, every other slot is cleared. */
  function Reallocated(clients: seq<Client>, count: int, newMax: nat): (r: seq<Client>)
    requires count <= |clients|
    ensures |r| == newMax
  {
    seq(newMax, i requires 0 <= i < newMax => if i < count && Connected(clients[i]) then clients[i] else ZeroClient)
  }

  /** Nobody connected is lost: every connected client is at its index after
      the reallocation to at least `count` slots. */
  lemma ReallocKeepsConnected(clients: seq<Client>, newMax: nat)
    requires |clients| >= 1 && newMax >= ClientCount(clients, |clients|)
    ensures forall i :: 0 <= i < |clients| && Connected(clients[i]) ==>
              Reallocated(clients, ClientCount(clients, |clients|), newMax)[i] == clients[i]
    ensures forall i :: 0 <= i < newMax && !(i < |clients| && Connected(clients[i])) ==>
              Reallocated(clients, ClientCount(clients, |clients|), newMax)[i] == ZeroClient
  {
  }

  // ---------------------------------------------------------------------
  // The server

  /**
   * The part of the server state sv_init.cpp works on: the configstring
   * table (a slot may be null), the server state, the client array with
   * sv_maxclients, and the commands handed to SV_SendServerCommand so far.
   */
  class Server {
    var configstrings: seq<Option<string>>
    var state: ServerState
    var restarting: bool
    var maxClients: int
    var clients: array<Client>
    var commands: seq<ServerCommand>
    var numSnapshotEntities: int

    ghost predicate Valid()
      reads this
    {
      |configstrings| == MAX_CONFIGSTRINGS && clients.Length == maxClients && 1 <= maxClients <= MAX_CLIENTS
    }

    constructor (maxClients: int)
      requires 1 <= maxClients <= MAX_CLIENTS
      ensures Valid() && this.maxClients == maxClients && fresh(clients)
      ensures configstrings == seq(MAX_CONFIGSTRINGS, _ => Some(""))
      ensures state == SS_DEAD && !restarting && commands == []
      ensures forall i :: 0 <= i < clients.Length ==> clients[i] == ZeroClient
    {
      configstrings := seq(MAX_CONFIGSTRINGS, _ => Some(""));
      state := SS_DEAD;
      restarting := false;
      this.maxClients := maxClients;
      clients := new Client[maxClients](_ => ZeroClient);
      commands := [];
      numSnapshotEntities := 0;
    }

    /**
     * SV_SetConfigstring: a bad index drops the server; a null value is "";
     * a value equal to the current one changes nothing; otherwise the slot
     * takes the value and, in game or while restarting, every client that
     * qualifies is sent it.
     */
    method SetConfigstring(index: int, val: Option<string>) returns (dropped: bool)
      requires Valid()
      requires 0 <= index < MAX_CONFIGSTRINGS ==> configstrings[index].Some?
      modifies this`configstrings, this`commands
      ensures Valid()
      ensures dropped <==> !(0 <= index < MAX_CONFIGSTRINGS)
      ensures dropped || old(configstrings[index].value) == NullAsEmpty(val) ==>
                configstrings == old(configstrings) && commands == old(commands)
      ensures !dropped && old(configstrings[index].value) != NullAsEmpty(val) ==>
                configstrings == old(configstrings)[index := Some(NullAsEmpty(val))] &&
                commands == old(commands) +
                  (if state == SS_GAME || restarting then Broadcast(clients[..], index, NullAsEmpty(val), maxClients) else [])
    {
      if index < 0 || index >= MAX_CONFIGSTRINGS {
        return true;
      }
      var v := if val.None? then "" else val.value;
      if v == configstrings[index].value {
        return false;
      }
      configstrings := configstrings[index := Some(v)];
      if state == SS_GAME || restarting {
        SendToClients(index, v);
      }
      return false;
    }

    /** The update loop of SV_SetConfigstring over the client slots. */
    method SendToClients(index: int, v: string)
      requires Valid()
      modifies this`commands
      ensures commands == old(commands) + Broadcast(clients[..], index, v, maxClients)
    {
        for i := 0 to maxClients
          invariant commands == old(commands) + Broadcast(clients[..], index, v, i)
        {
          var client := clients[i];
          ghost var sent := Broadcast(clients[..], index, v, i);
          ghost var share := Share(client, i, index, v);
          assert Broadcast(clients[..], index, v, i + 1) == sent + share;
          assert old(commands) + (sent + share) == commands + share;
          if StateLevel(client.state) < StateLevel(CS_PRIMED) {
            assert commands + share == commands;
            continue;
          }
          if index == CS_SERVERINFO && client.noServerInfo {
            assert commands + share == commands;
            continue;
          }
          var len := |v|;
          if len >= MAX_CHUNK_SIZE {
            SendChunks(i, index, v);
          } else {
            commands := commands + [Cs(i, index, v)];
          }
        }
    }

    /** The chunk loop of SV_SetConfigstring for one client. */
    method SendChunks(client: int, index: int, val: string)
      modifies this`commands
      ensures commands == old(commands) + ChunksFrom(client, index, val, 0)
    {
      var sent := 0;
      var remaining := |val|;
      while remaining > 0
        invariant 0 <= sent && remaining == |val| - sent
        invariant old(commands) + ChunksFrom(client, index, val, 0) == commands + ChunksFrom(client, index, val, sent)
        decreases remaining
      {
        var cmd := if sent == 0 then Bcs0 else if remaining < MAX_CHUNK_SIZE then Bcs2 else Bcs1;
        var buf := CopyBounded(val[sent..], MAX_CHUNK_SIZE);
        commands := commands + [Bcs(client, cmd, index, buf)];
        sent := sent + (MAX_CHUNK_SIZE - 1);
        remaining := remaining - (MAX_CHUNK_SIZE - 1);
      }
    }

    /** SV_GetConfigstring: a buffer size below 1 or a bad index drops the
        server; a null slot reads as ""; otherwise the value cut to fit. */
    method GetConfigstring(index: int, bufferSize: int) returns (dropped: bool, buffer: string)
      requires Valid()
      ensures dropped <==> bufferSize < 1 || !(0 <= index < MAX_CONFIGSTRINGS)
      ensures !dropped ==> buffer == ReadSlot(configstrings, index, bufferSize)
    {
      if bufferSize < 1 {
        return true, "";
      }
      if index < 0 || index >= MAX_CONFIGSTRINGS {
        return true, "";
      }
      if configstrings[index].None? {
        return false, "";
      }
      buffer := CopyBounded(configstrings[index].value, bufferSize);
      dropped := false;
    }

    /**
     * SV_AddConfigstring: 0 for no name; otherwise the offset of the first
     * slot in start+1 .. start+max-1 matching the name ignoring case, found
     * before the first empty slot. A new name is stored in that empty slot
     * and 0 is returned all the same; a full range returns 0.
     */
    method AddConfigstring(name: Option<string>, start: int, max: int) returns (r: int)
      requires Valid() && SlotsPresent(configstrings, start, max)
      modifies this`configstrings, this`commands
      ensures Valid()
      ensures AddName(name).None? ==> r == 0 && configstrings == old(configstrings) && commands == old(commands)
      ensures AddName(name).Some? ==>
                match ScanFrom(old(configstrings), AddName(name).value, start, max, 1)
                case Found(i) => r == i && configstrings == old(configstrings) && commands == old(commands)
                case Full => r == 0 && configstrings == old(configstrings) && commands == old(commands)
                case Insert(k) =>
                  r == 0 && configstrings == old(configstrings)[k := AddName(name)] &&
                  commands == old(commands) +
                    (if state == SS_GAME || restarting then Broadcast(clients[..], k, AddName(name).value, maxClients) else [])
    {
      if name.None? || |name.value| == 0 {
        return 0;
      }
      var n := name.value;
      if n[0] == '/' || n[0] == '\\' {
        n := n[1..];
        if |n| == 0 {
          return 0;
        }
      }
      assert AddName(name) == Some(n);
      r := ScanConfigstrings(n, start, max);
    }

    /** The scan loop of SV_AddConfigstring for a non-empty name. */
    method ScanConfigstrings(n: string, start: int, max: int) returns (r: int)
      requires Valid() && SlotsPresent(configstrings, start, max) && |n| > 0
      modifies this`configstrings, this`commands
      ensures Valid()
      ensures match ScanFrom(old(configstrings), n, start, max, 1)
              case Found(i) => r == i && configstrings == old(configstrings) && commands == old(commands)
              case Full => r == 0 && configstrings == old(configstrings) && commands == old(commands)
              case Insert(k) =>
                r == 0 && configstrings == old(configstrings)[k := Some(n)] &&
                commands == old(commands) +
                  (if state == SS_GAME || restarting then Broadcast(clients[..], k, n, maxClients) else [])
    {
      ghost var cs := configstrings;
      var i := 1;
      while i < max
        invariant 1 <= i && configstrings == cs && commands == old(commands)
        invariant ScanFrom(cs, n, start, max, 1) == ScanFrom(cs, n, start, max, i)
        decreases max - i
      {
        if |configstrings[start + i].value| == 0 {
          var dropped := SetConfigstring(start + i, Some(n));
          break;
        } else if SameIgnoringCase(configstrings[start + i].value, n) {
          return i;
        }
        i := i + 1;
      }
      return 0;
    }

    /** SV_BoundMaxClients; `requested` is the value Cvar_Get yields for sv_maxclients. */
    method BoundMaxClients(minimum: int, requested: int)
      modifies this`maxClients
      ensures maxClients == Bound(requested, minimum)
    {
      maxClients := requested;
      if maxClients < minimum {
        maxClients := minimum;
      } else if maxClients > MAX_CLIENTS {
        maxClients := MAX_CLIENTS;
      }
    }

    /**
     * SV_ChangeMaxClients: sv_maxclients is bounded below by 1 + the highest
     * connected index; if it ends where it was nothing else happens,
     * otherwise the client array is reallocated with the connected clients
     * below that count at their indices and every other slot cleared.
     */
    method ChangeMaxClients(requested: int, dedicated: bool)
      requires Valid()
      modifies this`maxClients, this`clients, this`numSnapshotEntities
      ensures Valid()
      ensures maxClients == Bound(requested, ClientCount(old(clients[..]), old(maxClients)))
      ensures maxClients == old(maxClients) ==> clients == old(clients) && numSnapshotEntities == old(numSnapshotEntities)
      ensures maxClients != old(maxClients) ==>
                numSnapshotEntities == SnapshotEntities(maxClients, dedicated) &&
                fresh(clients) &&
                clients[..] == Reallocated(old(clients[..]), ClientCount(old(clients[..]), old(maxClients)), maxClients)
    {
      var count := CountClients(clients, maxClients);
      var oldMaxClients := maxClients;
      BoundMaxClients(count, requested);
      BoundRange(requested, count);
      if maxClients == oldMaxClients {
        return;
      }
      var oldClients := SaveClients(clients, count);
      clients := RestoreClients(oldClients, maxClients);
      if dedicated {
        numSnapshotEntities := maxClients * PACKET_BACKUP * 64;
      } else {
        numSnapshotEntities := maxClients * 4 * 64;
      }
    }
  }

  /** The first loop of SV_ChangeMaxClients: 1 + the highest connected index. */
  method CountClients(clients: array<Client>, n: int) returns (count: int)
    requires 0 <= n <= clients.Length
    ensures count == ClientCount(clients[..], n)
  {
    count := 0;
    for i := 0 to n
      invariant count == (if i == 0 then 0 else ClientCount(clients[..], i) - 1)
    {
      if StateLevel(clients[i].state) >= StateLevel(CS_CONNECTED) {
        if i > count {
          count := i;
        }
      }
    }
    count := count + 1;
  }

  /** The temporary copy of the first `count` slots, unconnected ones cleared. */
  method SaveClients(clients: array<Client>, count: int) returns (saved: array<Client>)
    requires 0 <= count <= clients.Length
    ensures fresh(saved) && saved.Length == count
    ensures forall k :: 0 <= k < count ==> saved[k] == if Connected(clients[k]) then clients[k] else ZeroClient
  {
    saved := new Client[count];
    for i := 0 to count
      invariant forall k :: 0 <= k < i ==> saved[k] == if Connected(clients[k]) then clients[k] else ZeroClient
      modifies saved
    {
      if StateLevel(clients[i].state) >= StateLevel(CS_CONNECTED) {
        saved[i] := clients[i];
      } else {
        saved[i] := ZeroClient;
      }
    }
  }

  /** The new, cleared array of `newMax` slots with the saved connected clients copied back. */
  method RestoreClients(saved: array<Client>, newMax: int) returns (clients: array<Client>)
    requires saved.Length <= newMax
    ensures fresh(clients) && clients.Length == newMax
    ensures clients[..] == Reallocated(saved[..], saved.Length, newMax)
  {
    clients := new Client[newMax](_ => ZeroClient);
    for i := 0 to saved.Length
      invariant forall k :: 0 <= k < clients.Length ==>
                  clients[k] == if k < i && Connected(saved[k]) then saved[k] else ZeroClient
      modifies clients
    {
      if StateLevel(saved[i].state) >= StateLevel(CS_CONNECTED) {
        clients[i] := saved[i];
      }
    }
    assert clients[..] == Reallocated(saved[..], saved.Length, newMax);
  }

  /** The snapshot entity pool: PACKET_BACKUP snapshots per client on a
      dedicated server, 4 otherwise, of 64 entities each. */
  function SnapshotEntities(maxClients: int, dedicated: bool): int
  {
    if dedicated then maxClients * PACKET_BACKUP * 64 else maxClients * 4 * 64
  }

  function NullAsEmpty(val: Option<string>): string
  {
    if val.None? then "" else val.value
  }

  /** What SV_GetConfigstring yields for a valid request. */
  function ReadSlot(cs: seq<Option<string>>, index: int, bufferSize: int): (r: string)
    requires 0 <= index < |cs| && bufferSize >= 1
    ensures cs[index].None? ==> r == ""
    ensures cs[index].Some? ==> r <= cs[index].value && |r| <= bufferSize - 1
    ensures cs[index].Some? && |cs[index].value| < bufferSize ==> r == cs[index].value
  {
    if cs[index].None? then "" else CopyBounded(cs[index].value, bufferSize)
  }

  /** Reading a slot just set to `v` gives `v` cut to the buffer; other slots read as before. */
  lemma SetThenRead(cs: seq<Option<string>>, index: int, v: string, j: int, bufferSize: int)
    requires 0 <= index < |cs| && 0 <= j < |cs| && bufferSize >= 1
    ensures ReadSlot(cs[index := Some(v)], index, bufferSize) == CopyBounded(v, bufferSize)
    ensures j != index ==> ReadSlot(cs[index := Some(v)], j, bufferSize) == ReadSlot(cs, j, bufferSize)
  {
  }
}
