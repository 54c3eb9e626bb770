/** The application state: the run flag, the error popup flag, and the two scroll
    offsets with the scrollbars that mirror them. The database connection, the
    text area and the file explorer are not part of this model. */
module Application {
  import opened Terminal
  import CustomTable

  datatype Option<T> = None | Some(value: T)

  // ---------------------------------------------------------------------------
  // Saturating signed scrolling (`usize::saturating_add_signed`)

  /** An integer clipped to [0, USIZE_MAX]. */
  function Clamp(n: int): (r: USize)
    ensures 0 <= n <= USIZE_MAX ==> r == n
    ensures n < 0 ==> r == 0
    ensures n > USIZE_MAX ==> r == USIZE_MAX
  {
    if n < 0 then 0 else if n > USIZE_MAX then USIZE_MAX else n
  }

  /** `a + d`, clamped to the usize range: a step below 0 stops at 0 and a step
      past the maximum stops there; it never wraps. */
  function SaturatingAddSigned(a: USize, d: ISize): (r: USize)
    ensures a + d < 0 ==> r == 0
    ensures a + d > USIZE_MAX ==> r == USIZE_MAX
    ensures 0 <= a + d <= USIZE_MAX ==> r == a + d
  {
    Clamp(a + d)
  }

  /** The offset after a sequence of scroll steps, starting from a: never past
      a when no step goes forward, never before a when no step goes back. */
  function ScrollAll(a: USize, steps: seq<ISize>): (r: USize)
    ensures (forall k :: 0 <= k < |steps| ==> steps[k] <= 0) ==> r <= a
    ensures (forall k :: 0 <= k < |steps| ==> steps[k] >= 0) ==> r >= a
    decreases |steps|
  {
    if |steps| == 0 then a else ScrollAll(SaturatingAddSigned(a, steps[0]), steps[1..])
  }

  function Sum(steps: seq<ISize>): int
  {
    if |steps| == 0 then 0 else steps[0] + Sum(steps[1..])
  }

  /** One step lands where the true sum does, clipped to the usize range. */
  lemma StepIsClampedSum(a: USize, d: ISize)
    ensures SaturatingAddSigned(a, d) == Clamp(a + d)
    ensures SaturatingAddSigned(a, d) != a + d <==> (a + d < 0 || a + d > USIZE_MAX)
  {
  }

  /** Steps that never go forward end at the true sum, stopped at 0: the offset
      never goes negative and never wraps round to a large value. */
  lemma {:induction false} BackwardScrollsStopAtZero(a: USize, steps: seq<ISize>)
    requires forall k :: 0 <= k < |steps| ==> steps[k] <= 0
    ensures ScrollAll(a, steps) == Clamp(a + Sum(steps))
    decreases |steps|
  {
    if |steps| > 0 {
      var b := SaturatingAddSigned(a, steps[0]);
      BackwardScrollsStopAtZero(b, steps[1..]);
      if a + steps[0] < 0 {
        SumNonPositive(steps[1..]);
      }
    }
  }

  /** So backward scrolls from offset 0 leave it at 0. */
  lemma BackwardScrollsFromZero(steps: seq<ISize>)
    requires forall k :: 0 <= k < |steps| ==> steps[k] <= 0
    ensures ScrollAll(0, steps) == 0
  {
    BackwardScrollsStopAtZero(0, steps);
    SumNonPositive(steps);
  }

  lemma {:induction false} SumNonPositive(steps: seq<ISize>)
    requires forall k :: 0 <= k < |steps| ==> steps[k] <= 0
    ensures Sum(steps) <= 0
  {
    if |steps| > 0 {
      SumNonPositive(steps[1..]);
    }
  }

  /** Steps that never go back end at the true sum, stopped at the usize maximum. */
  lemma {:induction false} ForwardScrollsStopAtMax(a: USize, steps: seq<ISize>)
    requires forall k :: 0 <= k < |steps| ==> steps[k] >= 0
    ensures ScrollAll(a, steps) == Clamp(a + Sum(steps))
    decreases |steps|
  {
    if |steps| > 0 {
      var b := SaturatingAddSigned(a, steps[0]);
      ForwardScrollsStopAtMax(b, steps[1..]);
      if a + steps[0] > USIZE_MAX {
        SumNonNegative(steps[1..]);
      }
    }
  }

  lemma {:induction false} SumNonNegative(steps: seq<ISize>)
    requires forall k :: 0 <= k < |steps| ==> steps[k] >= 0
    ensures Sum(steps) >= 0
  {
    if |steps| > 0 {
      SumNonNegative(steps[1..]);
    }
  }

  /** A step that was not clipped is undone by the opposite step. */
  lemma ScrollBack(a: USize, d: ISize)
    requires 0 <= a + d <= USIZE_MAX && d != ISIZE_MIN
    ensures SaturatingAddSigned(SaturatingAddSigned(a, d), -d) == a
  {
  }

  // ---------------------------------------------------------------------------
  // The application object

  class App {
    var running: bool
    var input: string
    var table: CustomTable.Table
    var tableState: CustomTable.TableState
    /** The query's result batches, each given by the lines it prints as. */
    var results: seq<seq<string>>
    var error: Option<string>
    var showErrorPopup: bool
    var verticalScroll: USize
    var horizontalScroll: USize
    var verticalScrollState: ScrollbarState
    var horizontalScrollState: ScrollbarState

    /** Each scrollbar's position is the offset it belongs to. */
    ghost predicate ScrollbarsMirrorOffsets()
      reads this
    {
      verticalScrollState.position == verticalScroll && horizontalScrollState.position == horizontalScroll
    }

    /** `App::new`: running, nothing typed, no results, no error, popup hidden,
        both offsets at 0, default scrollbars, an empty table at the origin. */
    constructor ()
      ensures running && input == "" && results == [] && error == None && !showErrorPopup
      ensures verticalScroll == 0 && horizontalScroll == 0
      ensures verticalScrollState == DefaultScrollbar && horizontalScrollState == DefaultScrollbar
      ensures table == CustomTable.EmptyTable && tableState == CustomTable.DefaultState()
      ensures ScrollbarsMirrorOffsets()
    {
      running := true;
      input := "";
      results := [];
      error := None;
      showErrorPopup := false;
      verticalScroll := 0;
      horizontalScroll := 0;
      verticalScrollState := DefaultScrollbar;
      horizontalScrollState := DefaultScrollbar;
      table := CustomTable.EmptyTable;
      tableState := CustomTable.DefaultState();
    }

    /** `quit`: clears the run flag and nothing else. */
    method Quit()
      modifies this`running
      ensures !running
    {
      running := false;
    }

    /** `toggle_error_popup`: flips the popup flag and nothing else. */
    method ToggleErrorPopup()
      modifies this`showErrorPopup
      ensures showErrorPopup == !old(showErrorPopup)
    {
      showErrorPopup := !showErrorPopup;
    }

    /** `scroll_vertical`: moves the row offset by `amount`, clipped to the usize
        range, and puts the vertical scrollbar there; the horizontal offset and
        scrollbar do not change. */
    method ScrollVertical(amount: ISize)
      modifies this`verticalScroll, this`verticalScrollState
      ensures verticalScroll == Clamp(old(verticalScroll) + amount)
      ensures verticalScrollState == WithPosition(old(verticalScrollState), verticalScroll)
      ensures horizontalScroll == old(horizontalScroll) && horizontalScrollState == old(horizontalScrollState)
      ensures old(ScrollbarsMirrorOffsets()) ==> ScrollbarsMirrorOffsets()
    {
      StepIsClampedSum(verticalScroll, amount);
      verticalScroll := SaturatingAddSigned(verticalScroll, amount);
      verticalScrollState := WithPosition(verticalScrollState, verticalScroll);
    }

    /** `scroll_horizontal`: the same for the column offset and its scrollbar. */
    method ScrollHorizontal(amount: ISize)
      modifies this`horizontalScroll, this`horizontalScrollState
      ensures horizontalScroll == Clamp(old(horizontalScroll) + amount)
      ensures horizontalScrollState == WithPosition(old(horizontalScrollState), horizontalScroll)
      ensures verticalScroll == old(verticalScroll) && verticalScrollState == old(verticalScrollState)
      ensures old(ScrollbarsMirrorOffsets()) ==> ScrollbarsMirrorOffsets()
    {
      StepIsClampedSum(horizontalScroll, amount);
      horizontalScroll := SaturatingAddSigned(horizontalScroll, amount);
      horizontalScrollState := WithPosition(horizontalScrollState, horizontalScroll);
    }
  }

  /** Toggling the popup twice leaves it as it was. */
  method ToggleTwice(app: App)
    modifies app`showErrorPopup
    ensures app.showErrorPopup == old(app.showErrorPopup)
  {
    app.ToggleErrorPopup();
    app.ToggleErrorPopup();
  }
}
