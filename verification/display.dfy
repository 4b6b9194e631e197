/** What the client derives from the tables to show them: the winner's name
    in the game-over dialog, the winner and loser of a history row and its
    "#n" number, and a player's position label and progress bar. */
module Display {
  import opened Schema
  import opened Engine
  import Queries

  // -------------------------------------------------------------- game over

  /** The dialog's winnerName: player 1's name for winner 1, else player 2's. */
  function WinnerName(winner: Player, player1Name: string, player2Name: string): (r: string)
    ensures winner.Number() == 1 ==> r == player1Name
    ensures winner.Number() == 2 ==> r == player2Name
  {
    if winner == One then player1Name else player2Name
  }

  /** After a winning move the dialog names the player who moved, and that
      player's position reads "Finish". */
  lemma WinningMoveShowsMover(g: Game, newPosition: int, moveType: MoveType, now: int)
    requires newPosition >= WinningPosition
    ensures var after := MovedGame(g, newPosition, moveType, now);
            && after.winner.Some?
            && WinnerName(after.winner.value, after.player1Name, after.player2Name) == g.NameOf(g.currentPlayer)
            && PositionLabel(after.PositionOf(g.currentPlayer)) == Finish
            && !ShowsProgressBar(after.PositionOf(g.currentPlayer))
  {
    var after := MovedGame(g, newPosition, moveType, now);
    assert after.winner == Some(g.currentPlayer);
    assert after.PositionOf(g.currentPlayer) == newPosition;
  }

  // ---------------------------------------------------------------- history

  datatype Side = Side(name: string, color: string)

  /** One player's name and colour as a history row stores them. */
  function SideOf(rec: HistoryRecord, p: Player): Side {
    if p == One then Side(rec.player1Name, rec.player1Color) else Side(rec.player2Name, rec.player2Color)
  }

  datatype HistoryLine = HistoryLine(winner: Side, loser: Side)

  /** The "<winner> defeated <loser>" line: each name is taken together with
      its own colour, and the loser is the player the row does not name. */
  function LineOf(rec: HistoryRecord): (r: HistoryLine)
    ensures r.winner == SideOf(rec, rec.winner)
    ensures r.loser == SideOf(rec, rec.winner.Other())
    ensures multiset{r.winner, r.loser} == multiset{SideOf(rec, One), SideOf(rec, Two)}
  {
    var winnerName := if rec.winner == One then rec.player1Name else rec.player2Name;
    var winnerColor := if rec.winner == One then rec.player1Color else rec.player2Color;
    var loserName := if rec.winner == One then rec.player2Name else rec.player1Name;
    var loserColor := if rec.winner == One then rec.player2Color else rec.player1Color;
    HistoryLine(Side(winnerName, winnerColor), Side(loserName, loserColor))
  }

  /** The row a winning move archives is shown with the mover as winner and
      the other player as loser. */
  lemma ArchivedLineNamesMover(id: GameId, g: Game, now: int)
    ensures var line := LineOf(WinRecord(id, g, now));
            && line.winner == Side(g.NameOf(g.currentPlayer), g.ColorOf(g.currentPlayer))
            && line.loser == Side(g.NameOf(g.currentPlayer.Other()), g.ColorOf(g.currentPlayer.Other()))
  {
  }

  /** The "#n" shown beside the entry at `index` of a list of `count`. */
  function EntryNumber(count: nat, index: nat): (n: nat)
    requires index < count
    ensures 1 <= n <= count
    ensures index == 0 ==> n == count
    ensures index == count - 1 ==> n == 1
  {
    count - index
  }

  /** Different entries carry different numbers, and the numbers count down
      the list. */
  lemma EntryNumbersDistinct(count: nat, i: nat, j: nat)
    requires i < j < count
    ensures EntryNumber(count, i) > EntryNumber(count, j)
  {
  }

  /** The entry numbered #n is the n-th oldest of the rows the feed shows:
      while at most 20 games are archived that is the n-th game ever
      completed; beyond that the numbers restart at the oldest row shown. */
  lemma EntryNumberIsAge(history: seq<HistoryRecord>, i: nat)
    requires i < |Queries.GameHistoryQuery(history)|
    ensures var feed := Queries.GameHistoryQuery(history);
            var n := EntryNumber(|feed|, i);
            && feed[i] == history[|history| - |feed| + n - 1]
            && (|history| <= Queries.HistoryLimit ==> feed[i] == history[n - 1])
  {
  }

  // ------------------------------------------------------------ player card

  datatype Label = Start | Finish | Cell(position: int)

  /** "Start" at 0, "Finish!" from 100 on, the number otherwise. */
  function PositionLabel(position: int): (l: Label)
    ensures l == Start <==> position == 0
    ensures l == Finish <==> position >= 100
    ensures l.Cell? ==> l.position == position
  {
    if position == 0 then Start else if position >= 100 then Finish else Cell(position)
  }

  /** The bar is drawn only strictly between the start and the last cell. */
  function ShowsProgressBar(position: int): (b: bool)
    ensures b <==> 0 < position < 100
    ensures b ==> PositionLabel(position) == Cell(position)
  {
    position > 0 && position < 100
  }

  /** The bar's width in percent. */
  function BarWidth(position: int): (w: int)
    ensures w <= 100 && (w == position || w == 100)
    ensures position <= 100 ==> w == position
  {
    if position < 100 then position else 100
  }

  /** Whenever the bar is drawn the card shows the cell number, and the bar
      is as many percent wide as the position; the min with 100 never takes
      effect. */
  lemma ProgressBarOnCells(position: int)
    ensures ShowsProgressBar(position) ==>
              PositionLabel(position) == Cell(position) && BarWidth(position) == position
              && 1 <= BarWidth(position) <= 99
    ensures PositionLabel(position).Cell? && position > 0 ==> ShowsProgressBar(position)
  {
  }
}
