/** The game settings of Domineering (Lab_6/Domineering/appsettings.cpp,
    appsettings.h): difficulty, board size, game mode and whether the
    human moves first, and per player a colour and a human/computer flag
    that the mode and the first-move flag determine. */
module Settings {
  datatype Complexity = Easy | Normal | Expert

  datatype GameMode = HumanPC | HumanHuman | PCPC

  /** The three `QColor` values the settings use. */
  datatype Color = White | Red | Blue

  /** `SPlayer`. */
  datatype Player = Player(color: Color, isHuman: bool)

  datatype AppSettings = AppSettings(
    size: int, complexity: Complexity, mode: GameMode, humanFirst: bool,
    playersCount: int, players: seq<Player>)

  /** `cfg::defaultColor` (appsettings.cpp:4). */
  const DefaultColor := White

  /** Whether player `p` is a human under `mode` when the human side moves
      first exactly if `humanFirst`: both players in a human game, neither
      in a computer game, and in a mixed game the one whose turn order
      matches. */
  predicate HumanRole(mode: GameMode, humanFirst: bool, p: int) {
    match mode
    case HumanHuman => true
    case PCPC => false
    case HumanPC => (p == 0) == humanFirst
  }

  /** The player flags agree with the mode and the first-move flag. */
  ghost predicate Consistent(s: AppSettings) {
    |s.players| == 2 && forall p :: 0 <= p < 2 ==> s.players[p].isHuman == HumanRole(s.mode, s.humanFirst, p)
  }

  /** The constructor (appsettings.cpp:8-19): player 0 is the red human,
      player 1 the blue computer, and every other index is a white
      non-player. */
  function Defaults(): (s: AppSettings)
    ensures s.complexity == Easy && s.mode == HumanPC && s.humanFirst && s.size == 8 && s.playersCount == 2
    ensures Consistent(s)
    ensures IsHumanPlayer(s, 0) && !IsHumanPlayer(s, 1)
    ensures PlayerColor(s, 0) == Red && PlayerColor(s, 1) == Blue
    ensures forall p :: 2 <= p ==> !IsHumanPlayer(s, p) && PlayerColor(s, p) == DefaultColor
  {
    AppSettings(8, Easy, HumanPC, true, 2, [Player(Red, true), Player(Blue, false)])
  }

  /** `updatePlayers` (appsettings.cpp:78-94): rewrite the flags of players
      0 and 1 from the mode; the colours stay. */
  function UpdatePlayers(s: AppSettings): (r: AppSettings)
    requires 2 <= |s.players|
    ensures |r.players| == |s.players|
    ensures forall p :: 0 <= p < |s.players| ==> r.players[p].color == s.players[p].color
    ensures forall p :: 2 <= p < |s.players| ==> r.players[p] == s.players[p]
  {
    var (h0, h1) := match s.mode
      case HumanPC => (s.humanFirst, !s.humanFirst)
      case HumanHuman => (true, true)
      case PCPC => (false, false);
    s.(players := s.players[0 := s.players[0].(isHuman := h0)][1 := s.players[1].(isHuman := h1)])
  }

  /** `setGameMode` (appsettings.cpp:51-55). */
  function SetGameMode(s: AppSettings, mode: GameMode): (r: AppSettings)
    requires 2 <= |s.players|
  {
    UpdatePlayers(s.(mode := mode))
  }

  /** `setHumanTurnsFirst` (appsettings.cpp:57-61). */
  function SetHumanTurnsFirst(s: AppSettings, humanFirst: bool): (r: AppSettings)
    requires 2 <= |s.players|
  {
    UpdatePlayers(s.(humanFirst := humanFirst))
  }

  /** `setComplexity` (appsettings.cpp:41-44). */
  function SetComplexity(s: AppSettings, c: Complexity): (r: AppSettings) {
    s.(complexity := c)
  }

  /** `setPlaygroundSize` (appsettings.cpp:21-24). */
  function SetPlaygroundSize(s: AppSettings, size: int): (r: AppSettings) {
    s.(size := size)
  }

  /** `getPlayerColor` (appsettings.cpp:68-71). The index is compared as
      an unsigned size, so a negative index is out of range too. */
  function PlayerColor(s: AppSettings, p: int): (c: Color)
    ensures (p < 0 || |s.players| <= p) ==> c == DefaultColor
  {
    if 0 <= p < |s.players| then s.players[p].color else DefaultColor
  }

  /** `isHumanPlayer` (appsettings.cpp:73-76), with the same unsigned
      comparison. */
  function IsHumanPlayer(s: AppSettings, p: int): (h: bool)
    ensures h ==> 0 <= p < |s.players|
  {
    0 <= p < |s.players| && s.players[p].isHuman
  }

  // ---------------------------------------------------------------- properties

  /** Setting the mode or the first-move flag recomputes the flags from the
      new values, whatever they were before, and changes nothing else. */
  lemma SetGameModeConsistent(s: AppSettings, mode: GameMode)
    requires |s.players| == 2
    ensures var r := SetGameMode(s, mode);
      && Consistent(r) && r.mode == mode
      && r.(mode := s.mode, players := s.players) == s
      && forall p :: 0 <= p < 2 ==> PlayerColor(r, p) == PlayerColor(s, p)
  {
  }

  lemma SetHumanTurnsFirstConsistent(s: AppSettings, humanFirst: bool)
    requires |s.players| == 2
    ensures var r := SetHumanTurnsFirst(s, humanFirst);
      && Consistent(r) && r.humanFirst == humanFirst
      && r.(humanFirst := s.humanFirst, players := s.players) == s
      && forall p :: 0 <= p < 2 ==> PlayerColor(r, p) == PlayerColor(s, p)
  {
  }

  /** The difficulty and the board size are independent of the players. */
  lemma OtherSettersKeepPlayers(s: AppSettings, c: Complexity, size: int)
    requires Consistent(s)
    ensures Consistent(SetComplexity(s, c)) && SetComplexity(s, c).(complexity := s.complexity) == s
    ensures Consistent(SetPlaygroundSize(s, size)) && SetPlaygroundSize(s, size).(size := s.size) == s
  {
  }

  /** In a mixed game exactly one player is human: player 0 when the human
      moves first, player 1 otherwise; in the other modes both or neither. */
  lemma WhoIsHuman(s: AppSettings)
    requires Consistent(s)
    ensures s.mode == HumanPC ==>
      (IsHumanPlayer(s, 0) <==> s.humanFirst) && (IsHumanPlayer(s, 1) <==> !s.humanFirst)
    ensures s.mode == HumanHuman ==> IsHumanPlayer(s, 0) && IsHumanPlayer(s, 1)
    ensures s.mode == PCPC ==> !IsHumanPlayer(s, 0) && !IsHumanPlayer(s, 1)
    ensures forall p :: (p < 0 || 2 <= p) ==> !IsHumanPlayer(s, p) && PlayerColor(s, p) == DefaultColor
  {
    assert HumanRole(s.mode, s.humanFirst, 0) == s.players[0].isHuman;
    assert HumanRole(s.mode, s.humanFirst, 1) == s.players[1].isHuman;
  }

  /** The two setters commute: the flags depend only on the final mode and
      first-move flag, not on the order they were set in. */
  lemma SettersCommute(s: AppSettings, mode: GameMode, humanFirst: bool)
    requires |s.players| == 2
    ensures SetGameMode(SetHumanTurnsFirst(s, humanFirst), mode) ==
            SetHumanTurnsFirst(SetGameMode(s, mode), humanFirst)
  {
    var a := SetGameMode(SetHumanTurnsFirst(s, humanFirst), mode);
    var b := SetHumanTurnsFirst(SetGameMode(s, mode), humanFirst);
    assert a.players[0] == b.players[0] && a.players[1] == b.players[1];
    assert a.players == b.players;
  }
}
