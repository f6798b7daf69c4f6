/// One cell of the board (`GamePosition`): the integer it was constructed
/// with, whether it is fixed, its current value, the list of values still to
/// try and the list of values already tried.
module Positions {

  /// The state of a cell as a value. `initial` is the integer the cell was
  /// constructed with: the source's cell is an `int` subclass, and that
  /// integer, not `value`, is what the grid checks compare.
  datatype CellState = CellState(
    initial: int,
    value: int,
    fixed: bool,
    possibilities: seq<int>,
    tried: seq<int>)

  /// A cell as the constructor leaves it.
  function NewCell(v: int): CellState {
    CellState(v, v, v > 0, [], [])
  }

  /// `try`: step to the next value still to try, if there is one. It
  /// succeeds exactly when something is left to try, never changes the
  /// cell's schedule, the integer it was built with or its flag, and on
  /// success moves the old value to the end of the tried list.
  function TryCell(s: CellState): (r: (bool, CellState))
    ensures r.0 <==> s.possibilities != []
    ensures !r.0 ==> r.1 == s
    ensures r.0 ==> r.1.tried == s.tried + [s.value] && |r.1.possibilities| == |s.possibilities| - 1
    ensures Schedule(r.1) == Schedule(s)
    ensures r.1.initial == s.initial && r.1.fixed == s.fixed
  {
    if s.possibilities == [] then (false, s)
    else
      assert [s.possibilities[0]] + s.possibilities[1..] == s.possibilities;
      (true, s.(value := s.possibilities[0],
                possibilities := s.possibilities[1..],
                tried := s.tried + [s.value]))
  }

  /// `reset`: the tried values become the values to try; nothing is tried.
  /// The cell keeps its value, then goes through the tried values again.
  function ResetCell(s: CellState): (t: CellState)
    ensures t.tried == [] && Schedule(t) == [s.value] + s.tried
    ensures t.value == s.value && t.initial == s.initial && t.fixed == s.fixed
  {
    s.(possibilities := s.tried, tried := [])
  }

  /// Everything the cell has held and will hold, in order: the values tried,
  /// the current value, then the values still to try.
  function Schedule(s: CellState): seq<int> {
    s.tried + [s.value] + s.possibilities
  }

  /// The state after `k` calls of `try`.
  function TryTimes(s: CellState, k: nat): CellState
    decreases k
  {
    if k == 0 then s else TryTimes(TryCell(s).1, k - 1)
  }

  /// `try` fails exactly when nothing is left to try, and then changes
  /// nothing; otherwise it moves the cell one step along its schedule.
  lemma TryStep(s: CellState)
    ensures !TryCell(s).0 <==> s.possibilities == []
    ensures !TryCell(s).0 ==> TryCell(s).1 == s
    ensures TryCell(s).0 ==>
      && TryCell(s).1.tried == s.tried + [s.value]
      && TryCell(s).1.value == s.possibilities[0]
      && TryCell(s).1.possibilities == s.possibilities[1..]
    ensures Schedule(TryCell(s).1) == Schedule(s)
    ensures TryCell(s).1.initial == s.initial && TryCell(s).1.fixed == s.fixed
  {
  }

  /// `k` successful tries walk the first `k` values to try: the value is the
  /// k-th of them, the tried list has grown by the old value and the first
  /// k - 1 of them, and the rest are still to try.
  lemma {:induction false} TryTimesWalks(s: CellState, k: nat)
    requires k <= |s.possibilities|
    decreases k
    ensures TryTimes(s, k) == s.(
      value := if k == 0 then s.value else s.possibilities[k - 1],
      tried := s.tried + ([s.value] + s.possibilities)[..k],
      possibilities := s.possibilities[k..])
  {
    if k > 0 {
      var t := TryCell(s).1;
      TryTimesWalks(t, k - 1);
      assert t.possibilities[k - 1..] == s.possibilities[k..];
      assert k - 1 > 0 ==> t.possibilities[k - 2] == s.possibilities[k - 1];
      calc {
        t.tried + ([t.value] + t.possibilities)[..k - 1];
        s.tried + [s.value] + ([s.possibilities[0]] + s.possibilities[1..])[..k - 1];
        { assert [s.possibilities[0]] + s.possibilities[1..] == s.possibilities; }
        s.tried + [s.value] + s.possibilities[..k - 1];
        { assert ([s.value] + s.possibilities)[..k] == [s.value] + s.possibilities[..k - 1]; }
        s.tried + ([s.value] + s.possibilities)[..k];
      }
    }
  }

  /// Once every value has been tried, one more `try` fails and leaves the cell as it is.
  lemma {:induction false} TryExhausted(s: CellState)
    ensures var t := TryTimes(s, |s.possibilities|);
      !TryCell(t).0 && TryCell(t).1 == t && t.possibilities == []
  {
    TryTimesWalks(s, |s.possibilities|);
  }

  /// A cell that starts with nothing tried, tries every value and is then
  /// reset is offered again its original value followed by every value it
  /// tried except the last one, which it still holds.
  lemma {:induction false} ResetAfterExhaustion(s: CellState)
    requires s.tried == [] && s.possibilities != []
    ensures var n := |s.possibilities|;
      var t := ResetCell(TryTimes(s, n));
      && t.tried == []
      && t.value == s.possibilities[n - 1]
      && t.possibilities == [s.value] + s.possibilities[..n - 1]
  {
    var n := |s.possibilities|;
    TryTimesWalks(s, n);
    assert ([s.value] + s.possibilities)[..n] == [s.value] + s.possibilities[..n - 1];
  }

  /// `GamePosition`: a cell of the board whose value and lists change in place.
  class GamePosition {
    const initial: int
    const fixed: bool
    var value: int
    var possibilities: seq<int>
    var tried: seq<int>

    function State(): CellState
      reads this
    {
      CellState(initial, value, fixed, possibilities, tried)
    }

    /// A new cell holds `v`, is fixed exactly when `v > 0`, and has nothing
    /// to try and nothing tried.
    constructor (v: int)
      ensures State() == NewCell(v)
      ensures value == v && initial == v && (fixed <==> v > 0)
      ensures possibilities == [] && tried == []
    {
      initial := v;
      value := v;
      possibilities := [];
      tried := [];
      if v > 0 {
        fixed := true;
      } else {
        fixed := false;
      }
    }

    /// `try`: with nothing left to try, report false and change nothing;
    /// otherwise move the old value to the tried list, take the first value
    /// to try as the new value and report true.
    method TryNext() returns (changed: bool)
      modifies this
      ensures (changed, State()) == TryCell(old(State()))
      ensures changed <==> old(possibilities) != []
      ensures !changed ==> value == old(value) && possibilities == old(possibilities) && tried == old(tried)
      ensures changed ==>
        && tried == old(tried) + [old(value)]
        && value == old(possibilities)[0]
        && possibilities == old(possibilities)[1..]
    {
      if possibilities == [] {
        return false;
      }
      tried := tried + [value];
      value := possibilities[0];
      possibilities := possibilities[1..];
      return true;
    }

    /// `reset`: the tried values become the values to try, and nothing is tried.
    method Reset()
      modifies this
      ensures State() == ResetCell(old(State()))
      ensures possibilities == old(tried) && tried == [] && value == old(value)
    {
      possibilities := tried;
      tried := [];
    }
  }
}
