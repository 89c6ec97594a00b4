/** The small-wins journal: one-line wins added on top of a list, deleted
    by id, counted for today, and mirrored to storage while non-empty. */
module SmallWins {
  import opened Base
  import opened Text
  import EntryStore

  datatype Win = Win(id: string, text: string, date: string)

  /** `celebrating` is the two-second celebration banner. */
  datatype State = State(wins: seq<Win>, newWin: string, celebrating: bool, stored: Option<seq<Win>>)

  function WinId(w: Win): string
  {
    w.id
  }

  /** Adding a win, with `id` and `date` standing for `Date.now()` and
      today's date.  A blank input does nothing.  Otherwise the trimmed
      text goes on top as a new win, the old wins follow in order, the
      input is cleared, the banner shows and the list is stored. */
  function Add(s: State, id: string, date: string): (t: State)
    ensures IsBlank(s.newWin) ==> t == s
    ensures !IsBlank(s.newWin) ==>
              && |t.wins| == |s.wins| + 1
              && t.wins[0] == Win(id, Trim(s.newWin), date)
              && t.wins[1..] == s.wins
              && t.newWin == "" && t.celebrating
              && t.stored == Some(t.wins)
    ensures !IsBlank(s.newWin) ==> t.wins[0].text != [] && Contains(s.newWin, t.wins[0].text)
  {
    var text := Trim(s.newWin);
    if text == [] then s
    else
      var wins := [Win(id, text, date)] + s.wins;
      s.(wins := wins, newWin := "", celebrating := true, stored := EntryStore.Persist(s.stored, wins))
  }

  /** Deleting a win: every win with the id goes, the rest keep their
      order; storage is written only if something is left. */
  function Delete(s: State, id: string): (t: State)
    ensures t.wins == EntryStore.RemoveId(s.wins, WinId, id)
    ensures forall i :: 0 <= i < |t.wins| ==> t.wins[i].id != id
    ensures (forall i :: 0 <= i < |s.wins| ==> s.wins[i].id != id) ==> t.wins == s.wins
    ensures t.stored == (if |t.wins| > 0 then Some(t.wins) else s.stored)
    ensures t.newWin == s.newWin && t.celebrating == s.celebrating
  {
    var wins := EntryStore.RemoveId(s.wins, WinId, id);
    s.(wins := wins, stored := EntryStore.Persist(s.stored, wins))
  }

  /** The component as mounted over the stored snapshot. */
  function Mount(stored: Option<seq<Win>>): (s: State)
    ensures s.wins == EntryStore.Load(stored) && s.stored == stored
    ensures s.newWin == "" && !s.celebrating
  {
    State(EntryStore.Load(stored), "", false, stored)
  }

  /** `todayWins`: the wins dated `today`, in list order.  It holds every
      such win and nothing else, so it is never longer than the list. */
  function TodayWins(wins: seq<Win>, today: string): (r: seq<Win>)
    ensures |r| <= |wins|
    ensures forall i :: 0 <= i < |r| ==> r[i].date == today && r[i] in wins
    ensures forall i :: 0 <= i < |wins| && wins[i].date == today ==> wins[i] in r
    ensures (forall i :: 0 <= i < |wins| ==> wins[i].date == today) ==> r == wins
  {
    if wins == [] then []
    else (if wins[0].date == today then [wins[0]] else []) + TodayWins(wins[1..], today)
  }

  /** The filter works piecewise; with the single-win values the contract
      fixes, this makes the result the subsequence of today's wins, so
      `todayWins.length` counts them. */
  lemma {:induction false} TodayWinsAppend(x: seq<Win>, y: seq<Win>, today: string)
    ensures TodayWins(x + y, today) == TodayWins(x, today) + TodayWins(y, today)
    decreases |x|
  {
    if x == [] {
      assert x + y == y;
    } else {
      assert (x + y)[1..] == x[1..] + y;
      TodayWinsAppend(x[1..], y, today);
    }
  }

  /** A win added today is counted today; adding never lowers the count. */
  lemma AddCountsToday(s: State, id: string, today: string)
    requires !IsBlank(s.newWin)
    ensures |TodayWins(Add(s, id, today).wins, today)| == |TodayWins(s.wins, today)| + 1
  {
    var t := Add(s, id, today);
    assert t.wins == [t.wins[0]] + s.wins;
  }

  /** Adding with a fresh id and then deleting it gives back the old list. */
  lemma AddThenDelete(s: State, id: string, date: string)
    requires !IsBlank(s.newWin)
    requires forall i :: 0 <= i < |s.wins| ==> s.wins[i].id != id
    ensures Delete(Add(s, id, date), id).wins == s.wins
  {
    EntryStore.PrependThenRemove(Win(id, Trim(s.newWin), date), s.wins, WinId);
  }
}
