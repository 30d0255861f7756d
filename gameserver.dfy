/** The game-enabled server's shared state and its `handleClient`, proved
    against the session functions of `GameSession`. */
module GameServer {
  import opened Bytes
  import opened Ordering
  import opened Frames
  import opened Requests
  import opened Registry
  import opened TicTacToe
  import opened GameSession

  /** `clients` (inside `reg`) and `activeGames`. */
  class GameServer {
    const reg: Registry
    var games: Games

    predicate Valid()
      reads this, reg
    {
      reg.Valid() && GamesValid(games)
    }

    constructor()
      ensures Valid() && fresh(reg)
      ensures reg.clients == map[] && reg.outbox == [] && games == map[]
    {
      reg := new Registry();
      games := map[];
    }

    /** The 'P' handler's search: walks `activeGames` in key order and
        stops at the first active game `nick` plays. */
    method FindGame(nick: Bytes) returns (found: Option<NamePair>)
      ensures found == FindGameOf(games, nick)
    {
      var keys := SortedPairs(games.Keys);
      var i := FirstPlayingIndex(keys, games, nick);
      if i < |keys| {
        return Some(keys[i]);
      }
      return None;
    }

    /** The 'j' handler. */
    method HandleReply(nick: Bytes, inviter: Bytes, response: byte)
      requires Valid()
      modifies this, reg
      ensures Valid()
      ensures reg.clients == old(reg.clients)
      ensures games == ReplyEffect(old(reg.clients), old(games), nick, inviter, response).games
      ensures reg.outbox == old(reg.outbox) + ReplyEffect(old(reg.clients), old(games), nick, inviter, response).sent
    {
      ReplyOutcome(reg.clients, games, nick, inviter, response);
      ghost var start := reg.outbox;
      ghost var answer := Route(reg.clients, inviter, BuildGameResponse(nick, response == Yes));
      reg.SendToClient(inviter, BuildGameResponse(nick, response == Yes));
      if response == Yes {
        var key := GameKey(nick, inviter);
        games := games[key := InitializeGame(nick, inviter)];
        var board := BuildBoard(games[key].board, games[key].currentPlayer);
        ghost var toNick := Route(reg.clients, nick, board);
        ghost var toInviter := Route(reg.clients, inviter, board);
        reg.SendToClient(nick, board);
        reg.SendToClient(inviter, board);
        SendsInOrder(start, answer, toNick);
        SendsInOrder(start, answer + toNick, toInviter);
      }
    }

    /** The 'P' handler, from the search to the frames it sends. */
    method HandleMove(nick: Bytes, position: nat)
      requires Valid()
      modifies this, reg
      ensures Valid()
      ensures reg.clients == old(reg.clients)
      ensures games == MoveEffect(old(reg.clients), old(games), nick, position).games
      ensures reg.outbox == old(reg.outbox) + MoveEffect(old(reg.clients), old(games), nick, position).sent
    {
      MoveOutcome(reg.clients, games, nick, position);
      var found := FindGame(nick);
      if found.None? {
        reg.SendToClient(nick, BuildError(NoActiveGame));
      } else {
        PlayMove(found.value, nick, position);
      }
    }

    /** The 'P' handler's checks and update on the game it found. */
    method PlayMove(key: NamePair, nick: Bytes, position: nat)
      requires reg.Valid() && key in games && |games[key].board| == 9
      modifies this, reg
      ensures reg.Valid()
      ensures reg.clients == old(reg.clients)
      ensures games == PlayEffect(old(reg.clients), old(games), key, nick, position).games
      ensures reg.outbox == old(reg.outbox) + PlayEffect(old(reg.clients), old(games), key, nick, position).sent
    {
      var game := games[key];
      var opponent := Opponent(game, nick);
      if game.currentPlayer != nick {
        reg.SendToClient(nick, BuildError(NotYourTurn));
      } else if position >= 9 {
        reg.SendToClient(nick, BuildError(InvalidPosition));
      } else if game.board[position] != Blank {
        reg.SendToClient(nick, BuildError(PositionOccupied));
      } else {
        var mark := MarkOf(game, nick);
        var board := game.board[position := mark];
        var won := CheckWinner(board, mark);
        ghost var start := reg.outbox;
        ghost var clients := reg.clients;
        if won {
          reg.SendToClient(nick, BuildGameResult(WinCode));
          reg.SendToClient(opponent, BuildGameResult(LossCode));
          SendsInOrder(start, Route(clients, nick, BuildGameResult(WinCode)), Route(clients, opponent, BuildGameResult(LossCode)));
          games := games - {key};
        } else {
          var full := CheckIsPositionUsed(board);
          if full {
            reg.SendToClient(nick, BuildGameResult(DrawCode));
            reg.SendToClient(opponent, BuildGameResult(DrawCode));
            SendsInOrder(start, Route(clients, nick, BuildGameResult(DrawCode)), Route(clients, opponent, BuildGameResult(DrawCode)));
            games := games - {key};
          } else {
            games := games[key := game.(board := board, currentPlayer := opponent)];
            var frame := BuildBoard(board, opponent);
            reg.SendToClient(nick, frame);
            reg.SendToClient(opponent, frame);
            SendsInOrder(start, Route(clients, nick, frame), Route(clients, opponent, frame));
          }
        }
      }
    }

    /** The removal pass at the end of a session: collects the keys of the
        games involving `nick`, then tells each other player who is still
        registered that the opponent left, and erases the game. */
    method LeaveGames(nick: Bytes)
      requires Valid()
      modifies this, reg
      ensures Valid()
      ensures reg.clients == old(reg.clients)
      ensures games == LeaveEffect(old(reg.clients), old(games), nick).games
      ensures reg.outbox == old(reg.outbox) + LeaveEffect(old(reg.clients), old(games), nick).sent
    {
      LeaveOutcome(reg.clients, games, nick);
      var toRemove := CollectInvolved(nick);
      RemoveGames(toRemove, nick);
    }

    /** The first loop of the removal pass: the keys, in key order, of the
        games involving `nick`. */
    method CollectInvolved(nick: Bytes) returns (toRemove: seq<NamePair>)
      ensures toRemove == Involved(SortedPairs(games.Keys), games, nick)
    {
      toRemove := InvolvedKeys(SortedPairs(games.Keys), games, nick);
    }

    /** The second loop of the removal pass over the collected keys. */
    method RemoveGames(toRemove: seq<NamePair>, nick: Bytes)
      requires reg.Valid()
      requires forall k | k in toRemove :: k in games
      modifies this, reg
      ensures reg.Valid()
      ensures reg.clients == old(reg.clients)
      ensures games == Without(old(games), toRemove)
      ensures reg.outbox == old(reg.outbox) + Notices(toRemove, old(reg.clients), old(games), nick)
    {
      var table := games;
      ghost var clients := reg.clients;
      var i := 0;
      while i < |toRemove|
        invariant 0 <= i <= |toRemove|
        invariant reg.clients == clients && reg.Valid()
        invariant games == Without(table, toRemove[..i])
        invariant reg.outbox == old(reg.outbox) + Notices(toRemove[..i], clients, table, nick)
      {
        var key := toRemove[i];
        NoticesStep(toRemove, i, clients, table, nick);
        WithoutStep(table, toRemove, i);
        var other := Opponent(table[key], nick);
        ghost var before := reg.outbox;
        if other in reg.clients {
          reg.SendToClient(other, BuildGameResult(LeftCode));
        }
        assert reg.outbox == before + Route(clients, other, BuildGameResult(LeftCode));
        games := games - {key};
        i := i + 1;
      }
      assert toRemove[..|toRemove|] == toRemove;
    }

    /** One iteration of the request loop, for a request other than 'x'. */
    method Handle(nick: Bytes, sock: Socket, req: Request, high: Bytes)
      requires Valid() && |high| == 2
      modifies this, reg
      ensures Valid()
      ensures reg.clients == old(reg.clients)
      ensures games == Effect(old(reg.clients), old(games), nick, sock, req, high).games
      ensures reg.outbox == old(reg.outbox) + Effect(old(reg.clients), old(games), nick, sock, req, high).sent
    {
      if req.Reply? {
        HandleReply(nick, req.inviter, req.response);
      } else if req.Move? {
        HandleMove(nick, req.position);
      } else {
        Relay(nick, sock, req, high);
      }
    }

    /** The handlers that only send frames: they leave the games alone. */
    method Relay(nick: Bytes, sock: Socket, req: Request, high: Bytes)
      requires Valid() && |high| == 2
      requires !req.Reply? && !req.Move?
      modifies reg
      ensures Valid()
      ensures reg.clients == old(reg.clients)
      ensures reg.outbox == old(reg.outbox) + Relayed(old(reg.clients), nick, sock, req, high)
    {
      match req
      case Broadcast(text) => reg.SendAll(BuildBroadcast(nick, text), sock);
      case Private(dest, text) => reg.SendToClient(dest, BuildToClient(nick, text));
      case ListClients =>
        var list := reg.BuildList();
        reg.Send(sock, list);
      case Quit =>
      case SendFile(dest, filename, data) => reg.SendToClient(dest, BuildFile(nick, filename, data, high));
      case SendObject(dest, data) => reg.SendToClient(dest, BuildObject(nick, data));
      case Invite(dest) => reg.SendToClient(dest, BuildGameRequest(nick));
      case Unknown(_) =>
    }

    /** `handleClient(sock)` for a connection whose whole input is `input`:
        registration, then the session. */
    method Serve(sock: Socket, input: Bytes, high: Bytes)
      requires Valid() && sock >= 0 && |high| == 2
      modifies this, reg
      ensures Valid()
      ensures reg.clients == UdpServe(old(reg.clients), old(games), sock, input, high).clients
      ensures games == UdpServe(old(reg.clients), old(games), sock, input, high).games
      ensures reg.outbox == old(reg.outbox) + UdpServe(old(reg.clients), old(games), sock, input, high).sent
    {
      var login := ReadRegistration(input);
      if !login.Got? {
        return;
      }
      var nick := login.value;
      var ok := reg.Register(nick, sock);
      if ok {
        Session(nick, sock, login.rest, high);
      }
    }

    /** A registered session: the request loop, then (unless the loop
        returned early) the name's removal and the removal pass over its
        games. */
    method Session(nick: Bytes, sock: Socket, input: Bytes, high: Bytes)
      requires Valid() && |high| == 2
      modifies this, reg
      ensures Valid()
      ensures reg.clients == JoinedSession(old(reg.clients), old(games), nick, sock, input, high).clients
      ensures games == JoinedSession(old(reg.clients), old(games), nick, sock, input, high).games
      ensures reg.outbox == old(reg.outbox) + JoinedSession(old(reg.clients), old(games), nick, sock, input, high).sent
    {
      ghost var joined := reg.clients;
      ghost var served := JoinedSession(joined, games, nick, sock, input, high);
      ghost var s := RunSession(joined, games, nick, sock, input, high);
      var cleanup := RequestLoop(nick, sock, input, high);
      if cleanup {
        reg.Unregister(nick);
        ghost var l := LeaveEffect(joined - {nick}, s.games, nick);
        assert served.sent == s.sent + l.sent;
        ghost var afterLoop := reg.outbox;
        LeaveGames(nick);
        assert reg.outbox == afterLoop + l.sent;
        assert afterLoop == old(reg.outbox) + s.sent;
        SendsInOrder(old(reg.outbox), s.sent, l.sent);
      } else {
        assert served == Served(joined, s.games, s.sent);
      }
    }

    /** The `while (true)` loop of `handleClient`: one request per
        iteration until the input ends, an 'x' arrives or the 'f' handler
        returns early (then `cleanup` is false). */
    method RequestLoop(nick: Bytes, sock: Socket, input: Bytes, high: Bytes) returns (cleanup: bool)
      requires Valid() && |high| == 2
      modifies this, reg
      ensures Valid()
      ensures reg.clients == old(reg.clients)
      ensures games == RunSession(old(reg.clients), old(games), nick, sock, input, high).games
      ensures reg.outbox == old(reg.outbox) + RunSession(old(reg.clients), old(games), nick, sock, input, high).sent
      ensures cleanup == RunSession(old(reg.clients), old(games), nick, sock, input, high).cleanup
    {
      ghost var joined := reg.clients;
      ghost var start := RunSession(joined, games, nick, sock, input, high);
      ghost var outbox0 := reg.outbox;
      var rest := input;
      var done := false;
      cleanup := true;
      while !done
        invariant Valid() && reg.clients == joined
        invariant !done ==> cleanup
        invariant !done ==>
          var now := RunSession(joined, games, nick, sock, rest, high);
          now.games == start.games && now.cleanup == start.cleanup
          && outbox0 + start.sent == reg.outbox + now.sent
        invariant done ==>
          games == start.games && cleanup == start.cleanup && reg.outbox == outbox0 + start.sent
        decreases |rest| + (if done then 0 else 1)
      {
        RunSessionStops(joined, games, nick, sock, rest, high);
        var read := ReadUdpRequest(rest);
        if read.Ended? {
          done := true;
        } else if read.Abandoned? {
          done := true;
          cleanup := false;
        } else if read.value.Quit? {
          done := true;
        } else {
          RunSessionStep(joined, games, nick, sock, rest, high);
          ghost var before := reg.outbox;
          ghost var step := Effect(joined, games, nick, sock, read.value, high);
          Handle(nick, sock, read.value, high);
          ghost var tail := RunSession(joined, games, nick, sock, read.rest, high);
          SendsInOrder(before, step.sent, tail.sent);
          rest := read.rest;
        }
      }
    }
  }

  /** The loop of the 'P' handler's search over the keys in order: the
      index of the first game `nick` is playing, or the number of keys. */
  method FirstPlayingIndex(keys: seq<NamePair>, games: Games, nick: Bytes) returns (i: nat)
    requires forall k | k in keys :: k in games
    ensures i == FirstPlaying(keys, games, nick)
  {
    i := 0;
    while i < |keys|
      invariant 0 <= i <= |keys|
      invariant forall j | 0 <= j < i :: !Playing(games[keys[j]], nick)
    {
      if Playing(games[keys[i]], nick) {
        FirstPlayingAt(keys, games, nick, i);
        return;
      }
      i := i + 1;
    }
    FirstPlayingAt(keys, games, nick, i);
  }

  /** The first loop of the removal pass over the keys in order. */
  method InvolvedKeys(keys: seq<NamePair>, games: Games, nick: Bytes) returns (toRemove: seq<NamePair>)
    requires forall k | k in keys :: k in games
    ensures toRemove == Involved(keys, games, nick)
  {
    toRemove := [];
    var i := 0;
    while i < |keys|
      invariant 0 <= i <= |keys|
      invariant toRemove == Involved(keys[..i], games, nick)
    {
      assert keys[..i + 1][..i] == keys[..i];
      if Involves(games[keys[i]], nick) {
        toRemove := toRemove + [keys[i]];
      }
      i := i + 1;
    }
    assert keys[..|keys|] == keys;
  }
}
