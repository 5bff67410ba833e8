/// Reading a header column by column: a cell reads one value at a position of a byte
/// string, `Column` reads `n` cells one after the other, and `Apply` stores a column
/// of values into one field of each record.  Both header parsers (cortex/cortex.go
/// `readHeader` and gortex.go `ReadHeader`) are built from these.
///
/// The loops that read a column through a `Reader` are proved cell by cell against
/// `Column` with `Tracks`, the state such a loop is in after `i` cells.
module Columns {
  import opened GoInts

  /** Why reading stopped: the bytes ran out, a sentinel was not "CORTEX", a name
    * length was above 10000, a flag byte was neither 0 nor 1 (flag 0 to 3 of a
    * cleaning record), or a cleaning-graph name did not fit its buffer. */
  datatype Failure = Truncated | NotCortex | NameTooLong | FlagNotBinary(flag: nat) | IndexOutOfRange

  /** A value read and the position after it, or why reading stopped. */
  datatype Parsed<T> = Done(value: T, next: nat) | Fail(failure: Failure)

  /** `n` cells one after the other. */
  function Column<T>(cell: (seq<u8>, nat) -> Parsed<T>, data: seq<u8>, pos: nat, n: nat): (r: Parsed<seq<T>>)
    ensures r.Done? ==> |r.value| == n
  {
    if n == 0 then Done([], pos)
    else
      match Column(cell, data, pos, n - 1)
      case Fail(e) => Fail(e)
      case Done(vs, p) =>
        match cell(data, p)
        case Fail(e) => Fail(e)
        case Done(v, q) => Done(vs + [v], q)
  }

  /** A column of `n` cells is the column of `n - 1` cells and one more cell. */
  lemma ColumnSnoc<T>(cell: (seq<u8>, nat) -> Parsed<T>, data: seq<u8>, pos: nat, n: nat, init: seq<T>, q: nat, last: T, end: nat)
    requires n > 0 && Column(cell, data, pos, n - 1) == Done(init, q) && cell(data, q) == Done(last, end)
    ensures Column(cell, data, pos, n) == Done(init + [last], end)
  {
  }

  /** A failure stays a failure however many more cells are read. */
  lemma {:induction false} ColumnFails<T>(cell: (seq<u8>, nat) -> Parsed<T>, data: seq<u8>, pos: nat, i: nat, n: nat)
    requires i <= n && Column(cell, data, pos, i).Fail?
    ensures Column(cell, data, pos, n) == Column(cell, data, pos, i)
    decreases n
  {
    if i < n {
      ColumnFails(cell, data, pos, i, n - 1);
    }
  }

  /** At the end of the data a column of cells that need bytes reads nothing or fails. */
  lemma {:induction false} ColumnAtEnd<T>(cell: (seq<u8>, nat) -> Parsed<T>, data: seq<u8>, n: nat)
    requires cell(data, |data|) == Fail(Truncated)
    ensures Column(cell, data, |data|, n) == if n == 0 then Done([], |data|) else Fail(Truncated)
  {
    if n > 1 {
      ColumnAtEnd(cell, data, n - 1);
    }
  }

  /** Two byte strings on which a cell reads the same from every position give the
    * same column. */
  lemma {:induction false} ColumnsAgree<T>(cell: (seq<u8>, nat) -> Parsed<T>, data: seq<u8>, data': seq<u8>, from: nat, pos: nat, n: nat)
    requires from <= pos
    requires forall p: nat :: from <= p ==> cell(data, p) == cell(data', p)
    requires forall p: nat :: from <= p ==> cell(data, p).Done? ==> p <= cell(data, p).next
    ensures Column(cell, data, pos, n) == Column(cell, data', pos, n)
    ensures Column(cell, data, pos, n).Done? ==> pos <= Column(cell, data, pos, n).next
  {
    if n > 0 {
      ColumnsAgree(cell, data, data', from, pos, n - 1);
    }
  }

  /** A column fails only in the ways its cell can. */
  lemma {:induction false} ColumnFailures<T>(cell: (seq<u8>, nat) -> Parsed<T>, data: seq<u8>, pos: nat, n: nat, allowed: Failure -> bool)
    requires forall p: nat :: cell(data, p).Fail? ==> allowed(cell(data, p).failure)
    ensures Column(cell, data, pos, n).Fail? ==> allowed(Column(cell, data, pos, n).failure)
  {
    if n > 0 {
      ColumnFailures(cell, data, pos, n - 1, allowed);
    }
  }

  /** The first `|vs|` records with one field set from `vs`. */
  function Apply<C, T>(cs: seq<C>, vs: seq<T>, setField: (C, T) -> C): (r: seq<C>)
    requires |vs| <= |cs|
    ensures |r| == |cs|
  {
    seq(|cs|, j requires 0 <= j < |cs| => if j < |vs| then setField(cs[j], vs[j]) else cs[j])
  }

  /** Setting one more field is one more sequence update. */
  lemma ApplyStep<C, T>(cs: seq<C>, vs: seq<T>, v: T, setField: (C, T) -> C)
    requires |vs| < |cs|
    ensures Apply(cs, vs + [v], setField) == Apply(cs, vs, setField)[|vs| := setField(cs[|vs|], v)]
  {
  }

  /** Where a column loop stands after `i` cells: while the cells read, the stream is
    * just past them and the records carry their values over `c0`; once the data has
    * run out, the stream is at its end. */
  ghost predicate Tracks<C, T>(r: Parsed<seq<T>>, pos: nat, end: nat, cs: seq<C>, c0: seq<C>, setField: (C, T) -> C)
  {
    match r
    case Done(vs, next) => pos == next && |vs| <= |c0| && cs == Apply(c0, vs, setField)
    case Fail(e) => e == Truncated && pos == end
  }

  /** One more cell read: the loop state moves from `i` cells to `i + 1`. */
  lemma {:induction false} TracksStep<C, T>(cell: (seq<u8>, nat) -> Parsed<T>, data: seq<u8>, p0: nat, i: nat,
                                            c0: seq<C>, setField: (C, T) -> C,
                                            pos: nat, cs: seq<C>, pos': nat, cs': seq<C>)
    requires i < |c0| && |cs| == |c0|
    requires cell(data, |data|) == Fail(Truncated)
    requires Tracks(Column(cell, data, p0, i), pos, |data|, cs, c0, setField)
    requires match cell(data, pos)
      case Done(w, q) => pos' == q && cs' == cs[i := setField(cs[i], w)]
      case Fail(e) => e == Truncated && pos' == |data|
    ensures Tracks(Column(cell, data, p0, i + 1), pos', |data|, cs', c0, setField)
  {
    match Column(cell, data, p0, i)
    case Fail(e) =>
    case Done(vs, next) =>
      match cell(data, pos)
      case Fail(e) =>
      case Done(w, q) =>
        ApplyStep(c0, vs, w, setField);
        assert cs' == Apply(c0, vs + [w], setField);
  }

  /** One more cell read by a loop that stops at an error other than running out of
    * bytes: either the whole column then fails with that error, or the loop state
    * moves on by one cell. */
  lemma {:induction false} AdvanceOrStop<C, T>(cell: (seq<u8>, nat) -> Parsed<T>, data: seq<u8>, p0: nat, i: nat, n: nat,
                                               c0: seq<C>, setField: (C, T) -> C,
                                               pos: nat, cs: seq<C>, pos': nat, cs': seq<C>,
                                               stop: bool, stopWith: Failure)
    requires i < n == |c0| == |cs| && stopWith != Truncated
    requires cell(data, |data|) == Fail(Truncated)
    requires Tracks(Column(cell, data, p0, i), pos, |data|, cs, c0, setField)
    requires stop ==> cell(data, pos) == Fail(stopWith)
    requires !stop ==> match cell(data, pos)
      case Done(w, q) => pos' == q && cs' == cs[i := setField(cs[i], w)]
      case Fail(e) => e == Truncated && pos' == |data|
    ensures stop ==> Column(cell, data, p0, n) == Fail(stopWith)
    ensures !stop ==> Tracks(Column(cell, data, p0, i + 1), pos', |data|, cs', c0, setField)
  {
    if stop {
      ColumnFails(cell, data, p0, i + 1, n);
    } else {
      TracksStep(cell, data, p0, i, c0, setField, pos, cs, pos', cs');
    }
  }
}
