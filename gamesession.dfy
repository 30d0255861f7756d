/** What one client thread of the game-enabled server does to the shared
    state: the table of active games (`activeGames`, keyed by the pair of
    player names, smaller first) and the frames it sends. */
module GameSession {
  import opened Bytes
  import opened Ordering
  import opened Wire
  import opened Frames
  import opened Requests
  import opened RequestLaws
  import opened Registry
  import opened TicTacToe

  const NoActiveGame: Bytes := Ascii("No active game found")

  // The result octets of a 'W' frame.
  const WinCode: byte := 0x31 // '1'
  const LossCode: byte := 0x30 // '0'
  const DrawCode: byte := 0x32 // '2'
  const LeftCode: byte := 0x33 // '3'

  type Games = map<NamePair, Game>

  /** `make_pair(min(a, b), max(a, b))` under `std::string`'s order. */
  function GameKey(a: Bytes, b: Bytes): NamePair {
    if LexLess(b, a) then (b, a) else (a, b)
  }

  /** The key does not depend on who answers whom, holds both names, and
      puts the smaller name first. */
  lemma GameKeySymmetric(a: Bytes, b: Bytes)
    ensures GameKey(a, b) == GameKey(b, a)
    ensures {GameKey(a, b).0, GameKey(a, b).1} == {a, b}
    ensures !LexLess(GameKey(a, b).1, GameKey(a, b).0)
  {
    if LexLess(b, a) {
      LexLessAsymmetric(b, a);
    } else if !LexLess(a, b) && a != b {
      LexLessTotal(a, b);
    }
  }

  /** `nick` is one of the game's two players. */
  predicate Involves(g: Game, nick: Bytes) {
    g.player1 == nick || g.player2 == nick
  }

  /** The game the 'P' handler looks for: one `nick` plays that is active. */
  predicate Playing(g: Game, nick: Bytes) {
    Involves(g, nick) && g.active
  }

  /** Every stored game is in progress and is stored under its players' key. */
  predicate GamesValid(games: Games) {
    forall k | k in games :: InProgress(games[k]) && k == GameKey(games[k].player1, games[k].player2)
  }

  /** The index of the first key in `keys` whose game `nick` is playing, or
      `|keys|` when there is none. */
  function FirstPlaying(keys: seq<NamePair>, games: Games, nick: Bytes): (i: nat)
    requires forall k | k in keys :: k in games
    ensures i <= |keys|
    ensures i < |keys| ==> Playing(games[keys[i]], nick)
    ensures forall j | 0 <= j < i :: !Playing(games[keys[j]], nick)
  {
    if keys == [] then 0
    else if Playing(games[keys[0]], nick) then 0
    else 1 + FirstPlaying(keys[1..], games, nick)
  }

  /** The game the 'P' handler finds: the first one, in key order, that
      `nick` is playing. */
  function FindGameOf(games: Games, nick: Bytes): (r: Option<NamePair>)
    ensures r.Some? ==> r.value in games && Playing(games[r.value], nick)
    ensures r.None? ==> forall k | k in games :: !Playing(games[k], nick)
  {
    var keys := SortedPairs(games.Keys);
    var i := FirstPlaying(keys, games, nick);
    if i < |keys| then Some(keys[i]) else None
  }

  /** An index with no game of `nick`'s before it and one at it (or the
      end) is the one `FirstPlaying` finds. */
  lemma FirstPlayingAt(keys: seq<NamePair>, games: Games, nick: Bytes, i: nat)
    requires forall k | k in keys :: k in games
    requires i <= |keys|
    requires i < |keys| ==> Playing(games[keys[i]], nick)
    requires forall j | 0 <= j < i :: !Playing(games[keys[j]], nick)
    ensures FirstPlaying(keys, games, nick) == i
  {
  }

  /** No game with a smaller key is one `nick` is playing. */
  lemma FoundGameIsFirst(games: Games, nick: Bytes)
    requires FindGameOf(games, nick).Some?
    ensures forall k | k in games && PairLess(k, FindGameOf(games, nick).value) :: !Playing(games[k], nick)
  {
    var keys := SortedPairs(games.Keys);
    var i := FirstPlaying(keys, games, nick);
    forall k | k in games && PairLess(k, keys[i]) ensures !Playing(games[k], nick) {
      var j :| 0 <= j < |keys| && keys[j] == k;
      if j == i {
        PairLessIrreflexive(k);
      } else if j > i {
        assert PairLess(keys[i], keys[j]);
        PairLessAsymmetric(k, keys[i]);
      }
    }
  }

  /** What one request does: the games afterwards and the frames sent. */
  datatype Step = Step(games: Games, sent: seq<Delivery>)

  /** The 'j' handler: the answer goes to the inviter; a 'y' also starts a
      game under the pair's key, with the responder as player 1 and first to
      move, and sends the empty board to the responder, then the inviter. */
  function ReplyEffect(clients: map<Bytes, Socket>, games: Games, nick: Bytes, inviter: Bytes, response: byte): Step {
    var answer := Route(clients, inviter, BuildGameResponse(nick, response == Yes));
    if response == Yes then
      var g := InitializeGame(nick, inviter);
      var board := BuildBoard(g.board, g.currentPlayer);
      Step(games[GameKey(nick, inviter) := g], answer + Route(clients, nick, board) + Route(clients, inviter, board))
    else Step(games, answer)
  }

  /** Answering keeps every stored game valid. Accepting starts a fresh game
      between the two, the responder to move, replacing any game the pair
      already had and leaving every other game alone; declining changes no
      game. The inviter hears the answer first. */
  lemma ReplyOutcome(clients: map<Bytes, Socket>, games: Games, nick: Bytes, inviter: Bytes, response: byte)
    requires GamesValid(games)
    ensures GamesValid(ReplyEffect(clients, games, nick, inviter, response).games)
    ensures response != Yes ==> ReplyEffect(clients, games, nick, inviter, response).games == games
    ensures response == Yes ==>
      var after := ReplyEffect(clients, games, nick, inviter, response).games;
      && GameKey(inviter, nick) in after
      && after[GameKey(inviter, nick)].player1 == nick
      && after[GameKey(inviter, nick)].player2 == inviter
      && after[GameKey(inviter, nick)].currentPlayer == nick
      && (forall i | 0 <= i < 9 :: after[GameKey(inviter, nick)].board[i] == Blank)
      && (forall k | k in games && k != GameKey(inviter, nick) :: k in after && after[k] == games[k])
    ensures Route(clients, inviter, BuildGameResponse(nick, response == Yes))
         <= ReplyEffect(clients, games, nick, inviter, response).sent
  {
    if response == Yes {
      AcceptStartsGame(clients, games, nick, inviter);
    }
    AnswerFirst(clients, games, nick, inviter, response);
  }

  /** Accepting: the fresh game under the pair's key, every other game
      untouched. */
  lemma AcceptStartsGame(clients: map<Bytes, Socket>, games: Games, nick: Bytes, inviter: Bytes)
    requires GamesValid(games)
    ensures GamesValid(ReplyEffect(clients, games, nick, inviter, Yes).games)
    ensures
      var after := ReplyEffect(clients, games, nick, inviter, Yes).games;
      && GameKey(inviter, nick) in after
      && after[GameKey(inviter, nick)].player1 == nick
      && after[GameKey(inviter, nick)].player2 == inviter
      && after[GameKey(inviter, nick)].currentPlayer == nick
      && (forall i | 0 <= i < 9 :: after[GameKey(inviter, nick)].board[i] == Blank)
      && (forall k | k in games && k != GameKey(inviter, nick) :: k in after && after[k] == games[k])
  {
    GameKeySymmetric(nick, inviter);
    AcceptKeepsGamesValid(games, nick, inviter);
    var g := InitializeGame(nick, inviter);
    assert ReplyEffect(clients, games, nick, inviter, Yes).games == games[GameKey(inviter, nick) := g];
    StoredUnder(games, GameKey(inviter, nick), g);
  }

  /** The inviter hears the answer before either player gets the board. */
  lemma AnswerFirst(clients: map<Bytes, Socket>, games: Games, nick: Bytes, inviter: Bytes, response: byte)
    ensures Route(clients, inviter, BuildGameResponse(nick, response == Yes))
         <= ReplyEffect(clients, games, nick, inviter, response).sent
  {
    if response == Yes {
      var answer := Route(clients, inviter, BuildGameResponse(nick, true));
      var board := BuildBoard(BlankBoard, nick);
      assert answer + Route(clients, nick, board) + Route(clients, inviter, board)
          == answer + (Route(clients, nick, board) + Route(clients, inviter, board));
    }
  }

  /** Storing `g` under `key` leaves every other stored game alone. */
  lemma StoredUnder(games: Games, key: NamePair, g: Game)
    ensures key in games[key := g] && games[key := g][key] == g
    ensures forall k | k in games && k != key :: k in games[key := g] && games[key := g][k] == games[k]
  {
  }

  /** Storing a fresh game under its players' key keeps every game valid. */
  lemma AcceptKeepsGamesValid(games: Games, nick: Bytes, inviter: Bytes)
    requires GamesValid(games)
    ensures GamesValid(games[GameKey(nick, inviter) := InitializeGame(nick, inviter)])
    ensures InitializeGame(nick, inviter).currentPlayer == nick
    ensures forall i | 0 <= i < 9 :: InitializeGame(nick, inviter).board[i] == Blank
  {
    InitializeGameInProgress(nick, inviter);
  }

  /** The 'P' handler: find the mover's game; reject a missing game, a move
      out of turn, a position past 8 or an occupied cell with an error frame
      to the mover; otherwise mark the cell and either end the game ('1' to
      the mover and '0' to the opponent on a win, '2' to both on a draw) or
      pass the turn and send the new board to the mover, then the opponent. */
  function MoveEffect(clients: map<Bytes, Socket>, games: Games, nick: Bytes, position: nat): Step
    requires GamesValid(games)
  {
    match FindGameOf(games, nick)
    case None => Step(games, Route(clients, nick, BuildError(NoActiveGame)))
    case Some(key) => PlayEffect(clients, games, key, nick, position)
  }

  /** The 'P' handler once it has found the game stored under `key`. */
  function PlayEffect(clients: map<Bytes, Socket>, games: Games, key: NamePair, nick: Bytes, position: nat): Step
    requires key in games && |games[key].board| == 9
  {
    var g := games[key];
    var opponent := Opponent(g, nick);
    match Play(g, nick, position)
    case Rejected(reason) => Step(games, Route(clients, nick, BuildError(reason)))
    case Won(_) =>
      Step(games - {key},
           Route(clients, nick, BuildGameResult(WinCode)) + Route(clients, opponent, BuildGameResult(LossCode)))
    case Drawn(_) =>
      Step(games - {key},
           Route(clients, nick, BuildGameResult(DrawCode)) + Route(clients, opponent, BuildGameResult(DrawCode)))
    case Continued(next) =>
      var board := BuildBoard(next.board, next.currentPlayer);
      Step(games[key := next], Route(clients, nick, board) + Route(clients, opponent, board))
  }

  /** Who hears what after a move on the game under `key`: a rejected move
      answers the mover alone with the reason; a win sends '1' to the mover
      and '0' to the opponent; a draw sends '2' to both; a game that goes on
      sends both players the new board with the opponent to move. Every
      frame goes to one of the two players. */
  lemma PlaySends(clients: map<Bytes, Socket>, games: Games, key: NamePair, nick: Bytes, position: nat)
    requires key in games && |games[key].board| == 9
    ensures var g := games[key];
      var sent := PlayEffect(clients, games, key, nick, position).sent;
      && (forall d | d in sent :: exists p | p in clients && (p == nick || p == Opponent(g, nick)) :: d.sock == clients[p])
      && (Play(g, nick, position).Rejected? ==>
            sent == Route(clients, nick, BuildError(Play(g, nick, position).reason)))
      && (Play(g, nick, position).Won? ==>
            && (nick in clients ==> Delivery(clients[nick], BuildGameResult(WinCode)) in sent)
            && (Opponent(g, nick) in clients ==> Delivery(clients[Opponent(g, nick)], BuildGameResult(LossCode)) in sent))
      && (Play(g, nick, position).Drawn? ==>
            && (nick in clients ==> Delivery(clients[nick], BuildGameResult(DrawCode)) in sent)
            && (Opponent(g, nick) in clients ==> Delivery(clients[Opponent(g, nick)], BuildGameResult(DrawCode)) in sent))
      && (Play(g, nick, position).Continued? ==>
            var board := BuildBoard(Play(g, nick, position).next.board, Opponent(g, nick));
            && (nick in clients ==> Delivery(clients[nick], board) in sent)
            && (Opponent(g, nick) in clients ==> Delivery(clients[Opponent(g, nick)], board) in sent))
  {
  }

  /** Who hears what after an answer: the inviter gets the answer first;
      after a 'y' both players get the blank board naming the responder
      to move, and after anything else nothing more is sent. */
  lemma ReplySends(clients: map<Bytes, Socket>, games: Games, nick: Bytes, inviter: Bytes, response: byte)
    ensures var sent := ReplyEffect(clients, games, nick, inviter, response).sent;
      && (inviter in clients ==> sent[0] == Delivery(clients[inviter], BuildGameResponse(nick, response == Yes)))
      && (response != Yes ==> sent == Route(clients, inviter, BuildGameResponse(nick, false)))
      && (response == Yes ==>
            && (nick in clients ==> Delivery(clients[nick], BuildBoard(BlankBoard, nick)) in sent)
            && (inviter in clients ==> Delivery(clients[inviter], BuildBoard(BlankBoard, nick)) in sent))
  {
  }

  /** A move keeps every stored game valid and touches only the mover's
      game: with none, the mover gets the error and nothing changes; a
      rejected move changes nothing; a finished game is removed; otherwise
      the game is kept with the turn passed to the opponent. */
  lemma MoveOutcome(clients: map<Bytes, Socket>, games: Games, nick: Bytes, position: nat)
    requires GamesValid(games)
    ensures GamesValid(MoveEffect(clients, games, nick, position).games)
    ensures FindGameOf(games, nick).None? ==>
      MoveEffect(clients, games, nick, position) == Step(games, Route(clients, nick, BuildError(NoActiveGame)))
    ensures FindGameOf(games, nick).Some? ==>
      var key := FindGameOf(games, nick).value;
      var after := MoveEffect(clients, games, nick, position).games;
      && (forall k | k in games && k != key :: k in after && after[k] == games[k])
      && (Play(games[key], nick, position).Rejected? ==> after == games)
      && (key in after <==> !(Play(games[key], nick, position).Won? || Play(games[key], nick, position).Drawn?))
      && (key in after ==> after[key].currentPlayer == if Play(games[key], nick, position).Rejected? then games[key].currentPlayer else Opponent(games[key], nick))
      && (Play(games[key], nick, position).Continued? ==> after[key] == Play(games[key], nick, position).next)
  {
    match FindGameOf(games, nick)
    case None =>
    case Some(key) => PlayOutcome(clients, games, key, nick, position);
  }

  /** The same, once the game under `key` is found. */
  lemma PlayOutcome(clients: map<Bytes, Socket>, games: Games, key: NamePair, nick: Bytes, position: nat)
    requires GamesValid(games) && key in games
    ensures GamesValid(PlayEffect(clients, games, key, nick, position).games)
    ensures
      var after := PlayEffect(clients, games, key, nick, position).games;
      && (forall k | k in games && k != key :: k in after && after[k] == games[k])
      && (Play(games[key], nick, position).Rejected? ==> after == games)
      && (key in after <==> !(Play(games[key], nick, position).Won? || Play(games[key], nick, position).Drawn?))
      && (key in after ==> after[key].currentPlayer == if Play(games[key], nick, position).Rejected? then games[key].currentPlayer else Opponent(games[key], nick))
      && (Play(games[key], nick, position).Continued? ==> after[key] == Play(games[key], nick, position).next)
  {
    var g := games[key];
    if Play(g, nick, position).Continued? {
      PlayPreservesInProgress(g, nick, position);
    }
  }

  /** The keys of `keys`, in order, whose game involves `nick`: the
      handler's `toRemove`. */
  function Involved(keys: seq<NamePair>, games: Games, nick: Bytes): (r: seq<NamePair>)
    requires forall k | k in keys :: k in games
    ensures forall k :: k in r <==> k in keys && Involves(games[k], nick)
  {
    if keys == [] then []
    else
      var last := keys[|keys| - 1];
      Involved(keys[..|keys| - 1], games, nick) + (if Involves(games[last], nick) then [last] else [])
  }

  /** The 'W' '3' frames sent to the other player of each game in `keys`
      when they are still registered. */
  function Notices(keys: seq<NamePair>, clients: map<Bytes, Socket>, games: Games, nick: Bytes): seq<Delivery>
    requires forall k | k in keys :: k in games
  {
    if keys == [] then []
    else
      var last := keys[|keys| - 1];
      Notices(keys[..|keys| - 1], clients, games, nick)
        + Route(clients, Opponent(games[last], nick), BuildGameResult(LeftCode))
  }

  /** `games` without the keys listed in `keys`. */
  function Without(games: Games, keys: seq<NamePair>): Games {
    map k | k in games && k !in keys :: games[k]
  }

  /** Leaving out one more key removes just that key. */
  lemma WithoutStep(games: Games, keys: seq<NamePair>, i: nat)
    requires i < |keys|
    ensures Without(games, keys[..i + 1]) == Without(games, keys[..i]) - {keys[i]}
  {
    assert forall k :: k in keys[..i + 1] <==> k in keys[..i] || k == keys[i];
  }

  /** Walking one more key adds at most that game's notice. */
  lemma NoticesStep(keys: seq<NamePair>, i: nat, clients: map<Bytes, Socket>, games: Games, nick: Bytes)
    requires i < |keys|
    requires forall k | k in keys :: k in games
    ensures keys[i] in games
    ensures Notices(keys[..i + 1], clients, games, nick)
         == Notices(keys[..i], clients, games, nick) + Route(clients, Opponent(games[keys[i]], nick), BuildGameResult(LeftCode))
  {
    assert keys[..i + 1][..i] == keys[..i];
  }

  /** The removal pass after a session ends: every game involving `nick`
      is erased after its other player is told. `clients` is the table
      after `nick` left it. */
  function LeaveEffect(clients: map<Bytes, Socket>, games: Games, nick: Bytes): Step {
    var toRemove := Involved(SortedPairs(games.Keys), games, nick);
    Step(Without(games, toRemove), Notices(toRemove, clients, games, nick))
  }

  /** Every notice carries result '3' to a registered player, and every
      registered other player of the walked games gets one. */
  lemma {:induction false} NoticesReach(keys: seq<NamePair>, clients: map<Bytes, Socket>, games: Games, nick: Bytes)
    requires forall k | k in keys :: k in games
    ensures forall d | d in Notices(keys, clients, games, nick) ::
      d.data == BuildGameResult(LeftCode) && exists n | n in clients :: clients[n] == d.sock
    ensures forall k | k in keys && Opponent(games[k], nick) in clients ::
      Delivery(clients[Opponent(games[k], nick)], BuildGameResult(LeftCode)) in Notices(keys, clients, games, nick)
  {
    if keys != [] {
      var init := keys[..|keys| - 1];
      var last := keys[|keys| - 1];
      NoticesReach(init, clients, games, nick);
      forall k | k in keys && Opponent(games[k], nick) in clients
        ensures Delivery(clients[Opponent(games[k], nick)], BuildGameResult(LeftCode)) in Notices(keys, clients, games, nick)
      {
        if k != last {
          var i :| 0 <= i < |keys| && keys[i] == k;
          assert init[i] == k;
        }
      }
    }
  }

  /** After the removal pass no game involves `nick`, every other game is
      kept as it was, the stored games stay valid, and each registered
      other player of a removed game is told the opponent left. */
  lemma LeaveOutcome(clients: map<Bytes, Socket>, games: Games, nick: Bytes)
    ensures forall k | k in LeaveEffect(clients, games, nick).games :: !Involves(LeaveEffect(clients, games, nick).games[k], nick)
    ensures forall k | k in games && !Involves(games[k], nick) ::
      k in LeaveEffect(clients, games, nick).games && LeaveEffect(clients, games, nick).games[k] == games[k]
    ensures GamesValid(games) ==> GamesValid(LeaveEffect(clients, games, nick).games)
    ensures forall d | d in LeaveEffect(clients, games, nick).sent ::
      d.data == BuildGameResult(LeftCode) && exists n | n in clients :: clients[n] == d.sock
    ensures forall k | k in games && Involves(games[k], nick) && Opponent(games[k], nick) in clients ::
      Delivery(clients[Opponent(games[k], nick)], BuildGameResult(LeftCode)) in LeaveEffect(clients, games, nick).sent
  {
    var keys := SortedPairs(games.Keys);
    var toRemove := Involved(keys, games, nick);
    NoticesReach(toRemove, clients, games, nick);
  }

  /** What one request of the game-enabled server does. The file's size
      field carries `high` in its two undefined octets: one pair for the
      whole session, the same for every file forwarded in it. */
  function Effect(clients: map<Bytes, Socket>, games: Games, nick: Bytes, sock: Socket, req: Request, high: Bytes): (r: Step)
    requires GamesValid(games) && |high| == 2
    ensures GamesValid(r.games)
  {
    if req.Reply? then
      ReplyKeepsGamesValid(clients, games, nick, req.inviter, req.response);
      ReplyEffect(clients, games, nick, req.inviter, req.response)
    else if req.Move? then
      MoveKeepsGamesValid(clients, games, nick, req.position);
      MoveEffect(clients, games, nick, req.position)
    else Step(games, Relayed(clients, nick, sock, req, high))
  }

  /** The frames sent for the requests that leave the games alone. */
  function Relayed(clients: map<Bytes, Socket>, nick: Bytes, sock: Socket, req: Request, high: Bytes): seq<Delivery>
    requires !req.Reply? && !req.Move? && |high| == 2
  {
    match req
    case Broadcast(text) => SendAllOf(clients, BuildBroadcast(nick, text), sock)
    case Private(dest, text) => Route(clients, dest, BuildToClient(nick, text))
    case ListClients => [Delivery(sock, ListFrame(SortedNames(clients.Keys)))]
    case Quit => []
    case SendFile(dest, filename, data) => Route(clients, dest, BuildFile(nick, filename, data, high))
    case SendObject(dest, data) => Route(clients, dest, BuildObject(nick, data))
    case Invite(dest) => Route(clients, dest, BuildGameRequest(nick))
    case Unknown(_) => []
  }

  lemma ReplyKeepsGamesValid(clients: map<Bytes, Socket>, games: Games, nick: Bytes, inviter: Bytes, response: byte)
    requires GamesValid(games)
    ensures GamesValid(ReplyEffect(clients, games, nick, inviter, response).games)
  {
    ReplyOutcome(clients, games, nick, inviter, response);
  }

  lemma MoveKeepsGamesValid(clients: map<Bytes, Socket>, games: Games, nick: Bytes, position: nat)
    requires GamesValid(games)
    ensures GamesValid(MoveEffect(clients, games, nick, position).games)
  {
    MoveOutcome(clients, games, nick, position);
  }

  /** A session's request loop: the games when it ends, every frame it
      sent, and whether the handler's cleanup runs (it does not after the
      'f' handler's early return). */
  datatype Session = Session(games: Games, sent: seq<Delivery>, cleanup: bool)

  function RunSession(clients: map<Bytes, Socket>, games: Games, nick: Bytes, sock: Socket, input: Bytes, high: Bytes): (r: Session)
    requires GamesValid(games) && |high| == 2
    ensures GamesValid(r.games)
    decreases |input|
  {
    var read := ReadUdpRequest(input);
    if read.Ended? then Session(games, [], true)
    else if read.Abandoned? then Session(games, [], false)
    else if read.value.Quit? then Session(games, [], true)
    else
      var step := Effect(clients, games, nick, sock, read.value, high);
      var tail := RunSession(clients, step.games, nick, sock, read.rest, high);
      Session(tail.games, step.sent + tail.sent, tail.cleanup)
  }

  /** The session stops at the end of the input or at 'x', with the
      cleanup to come, and at the 'f' handler's early return, without it. */
  lemma RunSessionStops(clients: map<Bytes, Socket>, games: Games, nick: Bytes, sock: Socket, input: Bytes, high: Bytes)
    requires GamesValid(games) && |high| == 2
    ensures ReadUdpRequest(input).Ended? ==> RunSession(clients, games, nick, sock, input, high) == Session(games, [], true)
    ensures ReadUdpRequest(input).Abandoned? ==> RunSession(clients, games, nick, sock, input, high) == Session(games, [], false)
    ensures ReadUdpRequest(input).Got? && ReadUdpRequest(input).value.Quit? ==>
      RunSession(clients, games, nick, sock, input, high) == Session(games, [], true)
  {
  }

  /** A request other than 'x' is handled, then the session goes on. */
  lemma RunSessionStep(clients: map<Bytes, Socket>, games: Games, nick: Bytes, sock: Socket, input: Bytes, high: Bytes)
    requires GamesValid(games) && |high| == 2
    requires ReadUdpRequest(input).Got? && !ReadUdpRequest(input).value.Quit?
    ensures
      var read := ReadUdpRequest(input);
      var step := Effect(clients, games, nick, sock, read.value, high);
      var tail := RunSession(clients, step.games, nick, sock, read.rest, high);
      RunSession(clients, games, nick, sock, input, high) == Session(tail.games, step.sent + tail.sent, tail.cleanup)
  {
  }

  /** How a session's request loop is left: at the end of the input, at
      'x', or at a file request whose size or data is cut short. */
  datatype Exit = InputEnded | QuitRequested | FileCutShort

  /** The requests a session's input holds, in the order they are read,
      and how the loop is left after them. */
  datatype Parsed = Parsed(requests: seq<Request>, exit: Exit)

  /** The input read request by request, without the server's state: what
      is read never depends on the clients or the games. */
  function SessionRequests(input: Bytes): (r: Parsed)
    ensures forall q | q in r.requests :: !q.Quit?
    decreases |input|
  {
    var read := ReadUdpRequest(input);
    if read.Ended? then Parsed([], InputEnded)
    else if read.Abandoned? then Parsed([], FileCutShort)
    else if read.value.Quit? then Parsed([], QuitRequested)
    else
      var more := SessionRequests(read.rest);
      Parsed([read.value] + more.requests, more.exit)
  }

  /** Requests applied one after another, each to the games the previous
      one left. */
  function Replay(clients: map<Bytes, Socket>, games: Games, nick: Bytes, sock: Socket, reqs: seq<Request>, high: Bytes): (r: Step)
    requires GamesValid(games) && |high| == 2
    ensures GamesValid(r.games)
    decreases |reqs|
  {
    if reqs == [] then Step(games, [])
    else
      var step := Effect(clients, games, nick, sock, reqs[0], high);
      var tail := Replay(clients, step.games, nick, sock, reqs[1..], high);
      Step(tail.games, step.sent + tail.sent)
  }

  /** The request loop is reading every request first and then applying
      them in order; the cleanup runs exactly when the loop is not left at
      a file request cut short. */
  lemma {:induction false} SessionIsReplay(clients: map<Bytes, Socket>, games: Games, nick: Bytes, sock: Socket, input: Bytes, high: Bytes)
    requires GamesValid(games) && |high| == 2
    ensures
      var parsed := SessionRequests(input);
      var replay := Replay(clients, games, nick, sock, parsed.requests, high);
      RunSession(clients, games, nick, sock, input, high) == Session(replay.games, replay.sent, parsed.exit != FileCutShort)
    decreases |input|
  {
    var read := ReadUdpRequest(input);
    if read.Got? && !read.value.Quit? {
      var step := Effect(clients, games, nick, sock, read.value, high);
      var more := SessionRequests(read.rest);
      SessionIsReplay(clients, step.games, nick, sock, read.rest, high);
      var reqs := [read.value] + more.requests;
      assert reqs[0] == read.value && reqs[1..] == more.requests;
    }
  }

  /** The registered clients, the games and the frames sent once one
      connection's `handleClient` returns. */
  datatype Served = Served(clients: map<Bytes, Socket>, games: Games, sent: seq<Delivery>)

  /** `handleClient` of the game-enabled server: registration, the request
      loop, then (unless the loop returned early) the name's removal and
      the removal pass over its games. No join or leave broadcast. */
  function UdpServe(clients: map<Bytes, Socket>, games: Games, sock: Socket, input: Bytes, high: Bytes): Served
    requires GamesValid(games) && |high| == 2
  {
    var login := ReadRegistration(input);
    if !login.Got? then Served(clients, games, [])
    else if login.value in clients then Served(clients, games, [Delivery(sock, BuildError(NicknameTaken))])
    else JoinedSession(clients[login.value := sock], games, login.value, sock, login.rest, high)
  }

  /** A registered session of `nick`: the request loop, then the cleanup
      unless the loop returned early. */
  function JoinedSession(joined: map<Bytes, Socket>, games: Games, nick: Bytes, sock: Socket, input: Bytes, high: Bytes): Served
    requires GamesValid(games) && |high| == 2
  {
    var s := RunSession(joined, games, nick, sock, input, high);
    if !s.cleanup then Served(joined, s.games, s.sent)
    else
      var left := joined - {nick};
      var l := LeaveEffect(left, s.games, nick);
      Served(left, l.games, s.sent + l.sent)
  }

  /** A connection that does not register changes nothing; a name already
      in use gets only the error frame; a session that ends through the
      loop's `break` leaves the table as it found it and no game involving
      the name. */
  lemma ServeOutcome(clients: map<Bytes, Socket>, games: Games, sock: Socket, input: Bytes, high: Bytes)
    requires GamesValid(games) && |high| == 2
    ensures GamesValid(UdpServe(clients, games, sock, input, high).games)
    ensures !ReadRegistration(input).Got? ==> UdpServe(clients, games, sock, input, high) == Served(clients, games, [])
    ensures ReadRegistration(input).Got? && ReadRegistration(input).value in clients ==>
      UdpServe(clients, games, sock, input, high) == Served(clients, games, [Delivery(sock, BuildError(NicknameTaken))])
    ensures ReadRegistration(input).Got? && ReadRegistration(input).value !in clients ==>
      var nick := ReadRegistration(input).value;
      var s := RunSession(clients[nick := sock], games, nick, sock, ReadRegistration(input).rest, high);
      var after := UdpServe(clients, games, sock, input, high);
      s.cleanup ==> after.clients == clients && forall k | k in after.games :: !Involves(after.games[k], nick)
  {
    var login := ReadRegistration(input);
    if login.Got? && login.value !in clients {
      var nick := login.value;
      var joined := clients[nick := sock];
      var s := RunSession(joined, games, nick, sock, login.rest, high);
      if s.cleanup {
        assert joined - {nick} == clients;
        LeaveOutcome(joined - {nick}, s.games, nick);
      }
    }
  }

  /** As written: a client that registers and then sends a request the
      loop abandons (an 'f' request cut off inside its size field, as
      `RequestLaws.TruncatedFileAbandons` shows) stays registered after its
      thread returned, nothing is sent, and every game it was in stays
      stored. */
  lemma AbandonedFileKeepsName(clients: map<Bytes, Socket>, games: Games, sock: Socket, nick: Bytes, request: Bytes, high: Bytes)
    requires GamesValid(games) && |high| == 2
    requires 0 < |nick| < 0x1_0000 && CutAtNul(nick) !in clients
    requires ReadUdpRequest(request).Abandoned?
    ensures UdpServe(clients, games, sock, NicknamePacket(nick) + request, high)
         == Served(clients[CutAtNul(nick) := sock], games, [])
  {
    RegistrationRoundTrip(nick, request);
    RunSessionStops(clients[CutAtNul(nick) := sock], games, CutAtNul(nick), sock, request, high);
  }

  /** A registered session as evidently intended: every way out of the
      request loop removes the name and the games involving it. */
  function CleanJoinedSession(joined: map<Bytes, Socket>, games: Games, nick: Bytes, sock: Socket, input: Bytes, high: Bytes): Served
    requires GamesValid(games) && |high| == 2
  {
    var s := RunSession(joined, games, nick, sock, input, high);
    var left := joined - {nick};
    var l := LeaveEffect(left, s.games, nick);
    Served(left, l.games, s.sent + l.sent)
  }

  /** With the cleanup on every exit, a session never outlives its name:
      the name is free, no stored game involves it, and the stored games
      stay valid, whatever the input. */
  lemma CleanSessionFreesName(joined: map<Bytes, Socket>, games: Games, nick: Bytes, sock: Socket, input: Bytes, high: Bytes)
    requires GamesValid(games) && |high| == 2
    ensures nick !in CleanJoinedSession(joined, games, nick, sock, input, high).clients
    ensures forall k | k in CleanJoinedSession(joined, games, nick, sock, input, high).games ::
      !Involves(CleanJoinedSession(joined, games, nick, sock, input, high).games[k], nick)
    ensures GamesValid(CleanJoinedSession(joined, games, nick, sock, input, high).games)
  {
    var s := RunSession(joined, games, nick, sock, input, high);
    LeaveOutcome(joined - {nick}, s.games, nick);
  }
}
