/** The mission tables. Each table lists a flight plan, one row per
    command with its serial number in front. Selecting a row relabels the
    header cells with the parameter names of that row's command; a click
    on the header row, or anywhere outside the table and its Advanced
    button, clears the selection and restores the generic labels. The
    Advanced button only shows or hides the advanced columns. */
module Mission {
  import Reveal

  datatype Option<T> = None | Some(value: T)

  // ---------------------------------------------------------------
  // Constants: the legends, the generic header and the two plans.
  // ---------------------------------------------------------------

  /** `headingsMap`: the column names of each known command, the
      command column first and 12 parameter columns after it. */
  function LookupLegend(cmd: string): Option<seq<string>> {
    if cmd == "TAKEOFF" then
      Some(["Command", "—", "—", "—", "—", "—", "—", "Alt", "Frame", "Grad %", "Angle", "Dist", "AZ"])
    else if cmd == "LAND" then
      Some(["Command", "—", "—", "—", "1=Prec Land", "Lat", "Long", "Alt", "Frame", "Grad %", "Angle", "Dist", "AZ"])
    else if cmd == "WAYPOINT" then
      Some(WaypointLegend())
    else if cmd == "DO_SET_SERVO" then
      Some(["Command", "Ser No", "PWM", "—", "—", "—", "—", "—", "Frame", "Grad %", "Angle", "Dist", "AZ"])
    else if cmd == "DELAY" then
      Some(["Command", "Seconds (or -1)", "Hour UTC (or -1)", "Minute UTC (or -1)", "Second UTC (or -1)",
            "—", "—", "—", "Frame", "Grad %", "Angle", "Dist", "AZ"])
    else if cmd == "CONDITION_YAW" then
      Some(["Command", "Deg", "Speed (deg/s)", "Dir (1=CW)", "0=Abs, 1=Rel", "—", "—", "—",
            "Frame", "Grad %", "Angle", "Dist", "AZ"])
    else None
  }

  function WaypointLegend(): seq<string> {
    ["Command", "Delay", "—", "—", "—", "Lat", "Long", "Alt", "Frame", "Grad %", "Angle", "Dist", "AZ"]
  }

  /** `defaultHeads`: the labels shown when no row is selected. */
  function DefaultHeads(): seq<string> {
    ["Sr. No", "Command", "P1", "P2", "P3", "P4", "Lat", "Long", "Alt", "Frame", "Grad %", "Angle", "Dist", "AZ"]
  }

  /** The labels a click on `row` writes: `Sr. No`, then the legend of
      the row's command, the `WAYPOINT` legend when the command is not
      in the map (a row without cells has an undefined command). */
  function HeadsFor(row: seq<string>): (r: seq<string>)
    ensures |r| == |DefaultHeads()| && r[0] == "Sr. No" && r[1] == "Command"
    ensures |row| > 0 && LookupLegend(row[0]).Some? ==> r[1..] == LookupLegend(row[0]).value
    ensures !(|row| > 0 && LookupLegend(row[0]).Some?) ==> r[1..] == WaypointLegend()
  {
    var legend := if |row| > 0 then LookupLegend(row[0]) else None;
    ["Sr. No"] + match legend { case Some(l) => l case None => WaypointLegend() }
  }

  /** `data1`, Base to Monastery. */
  function Data1(): seq<seq<string>> {
    [ ["TAKEOFF", "0", "0", "0", "0", "0", "0", "10", "Relative", "0", "0", "0", "0"],
      ["WAYPOINT", "0", "0", "0", "0", "27.4835753", "89.6237273", "40", "Relative", "3682.5", "88.4", "40.0", "124"],
      ["WAYPOINT", "0", "0", "0", "0", "27.4890358", "89.57476", "976", "Relative", "19.2", "10.9", "4957.5", "277"],
      ["WAYPOINT", "5", "0", "0", "0", "27.4890358", "89.57476", "941", "Relative", "-∞", "-90.0", "35.0", "180"],
      ["DO_SET_SERVO", "11", "2000", "0", "0", "0", "0", "0", "Absolute", "0", "0", "0", "0"],
      ["DELAY", "5", "0", "0", "0", "0", "0", "0", "Absolute", "0", "0", "0", "0"],
      ["WAYPOINT", "40", "0", "0", "0", "27.4890358", "89.57476", "976", "Relative", "∞", "90.0", "35.0", "180"],
      ["CONDITION_YAW", "180", "10", "1", "1", "0", "0", "0", "Absolute", "0", "0", "0", "0"],
      ["DELAY", "30", "0", "0", "0", "0", "0", "0", "Absolute", "0", "0", "0", "0"],
      ["WAYPOINT", "0", "0", "0", "0", "27.4835963", "89.6237514", "489", "Relative", "-10.0", "-5.7", "4894.7", "97"],
      ["CONDITION_YAW", "180", "10", "1", "1", "0", "0", "0", "Absolute", "0", "0", "0", "0"],
      ["DELAY", "30", "0", "0", "0", "0", "0", "0", "Absolute", "0", "0", "0", "0"],
      ["WAYPOINT", "0", "0", "0", "0", "27.4860763", "89.6013565", "265", "Relative", "-10.1", "-5.7", "2237.5", "277"],
      ["CONDITION_YAW", "180", "10", "1", "1", "0", "0", "0", "Absolute", "0", "0", "0", "0"],
      ["DELAY", "30", "0", "0", "0", "0", "0", "0", "Absolute", "0", "0", "0", "0"],
      ["WAYPOINT", "0", "0", "0", "0", "27.4835963", "89.6237514", "41", "Relative", "-10.1", "-5.7", "2237.5", "97"],
      ["LAND", "0", "0", "0", "1", "27.4835753", "89.6237273", "0", "Relative", "-1230.4", "-85.4", "41.1", "226"] ]
  }

  /** `data2`, Monastery to Base. */
  function Data2(): seq<seq<string>> {
    [ ["TAKEOFF", "0", "0", "0", "0", "0", "0", "40", "Relative", "0", "0", "0", "0"],
      ["WAYPOINT", "0", "0", "0", "0", "27.4835753", "89.6237273", "-447", "Relative", "-9.2", "-5.2", "4888.5", "97"],
      ["CONDITION_YAW", "180", "10", "1", "0", "0", "0", "0", "Absolute", "0", "0", "0", "0"],
      ["DELAY", "30", "0", "0", "0", "0", "0", "0", "Absolute", "0", "0", "0", "0"],
      ["WAYPOINT", "0", "0", "0", "0", "27.4859639", "89.6017885", "-631", "Relative", "-8.4", "-4.8", "2188.1", "277"],
      ["CONDITION_YAW", "180", "10", "1", "0", "0", "0", "0", "Absolute", "0", "0", "0", "0"],
      ["DELAY", "30", "0", "0", "0", "0", "0", "0", "Absolute", "0", "0", "0", "0"],
      ["WAYPOINT", "0", "0", "0", "0", "27.4835753", "89.6237273", "-895", "Relative", "-12.1", "-6.9", "2196.3", "97"],
      ["LAND", "0", "0", "0", "1", "27.4835753", "89.6237273", "-956", "Relative", "-∞", "-90.0", "61.0", "180"] ]
  }

  /** Every legend has 13 labels, so a relabelled header has as many
      labels as the default one; every known legend starts with the
      command column. */
  lemma LegendsAligned(cmd: string)
    ensures LookupLegend(cmd).Some? ==> |LookupLegend(cmd).value| == 13 && LookupLegend(cmd).value[0] == "Command"
    ensures |WaypointLegend()| == 13 && |DefaultHeads()| == 14
  {
  }

  /** A plan row has a known command and one cell per legend column. */
  predicate WellFormedRow(row: seq<string>) {
    |row| == 13 && LookupLegend(row[0]).Some?
  }

  /** Both shipped plans have well-formed rows only, so the `WAYPOINT`
      fallback never fires on them. */
  lemma ShippedPlansWellFormed()
    ensures |Data1()| == 17 && |Data2()| == 9
    ensures forall i | 0 <= i < |Data1()| :: WellFormedRow(Data1()[i])
    ensures forall i | 0 <= i < |Data2()| :: WellFormedRow(Data2()[i])
  {
  }

  // ---------------------------------------------------------------
  // Serial numbers: `String(idx + 1)`.
  // ---------------------------------------------------------------

  function DigitChar(d: nat): (c: char)
    requires d < 10
    ensures Reveal.IsDigit(c) && (c as int) - ('0' as int) == d
  {
    (('0' as int) + d) as char
  }

  /** The decimal numeral of `n`: digits only, no leading zero. */
  function Decimal(n: nat): (r: string)
    ensures |r| > 0 && forall i | 0 <= i < |r| :: Reveal.IsDigit(r[i])
    ensures |r| > 1 ==> r[0] != '0'
    ensures n < 10 <==> |r| == 1
  {
    if n < 10 then [DigitChar(n)] else Decimal(n / 10) + [DigitChar(n % 10)]
  }

  /** The number a decimal numeral denotes. */
  function ParseDecimal(s: string): nat
    requires forall i | 0 <= i < |s| :: Reveal.IsDigit(s[i])
  {
    if s == [] then 0
    else
      var c := s[|s| - 1];
      assert Reveal.IsDigit(c);
      ParseDecimal(s[..|s| - 1]) * 10 + ((c as int) - ('0' as int))
  }

  /** Reading back a serial number gives the number written. */
  lemma {:induction false} DecimalRoundTrip(n: nat)
    ensures ParseDecimal(Decimal(n)) == n
  {
    var r := Decimal(n);
    if n >= 10 {
      assert r[..|r| - 1] == Decimal(n / 10);
      DecimalRoundTrip(n / 10);
    }
  }

  /** Two different rows never get the same serial number. */
  lemma DecimalInjective(m: nat, n: nat)
    ensures Decimal(m) == Decimal(n) ==> m == n
  {
    DecimalRoundTrip(m);
    DecimalRoundTrip(n);
  }

  /** The rendered rows: row `i` holds the serial `i + 1`, then the plan
      row's cells in order. */
  function Rendered(data: seq<seq<string>>): seq<seq<string>> {
    seq(|data|, i requires 0 <= i < |data| => [Decimal(i + 1)] + data[i])
  }

  /** A rendered row decodes back to its position and its plan row. */
  lemma RenderedDecodes(data: seq<seq<string>>, i: nat)
    requires i < |data|
    ensures |Rendered(data)| == |data|
    ensures var row := Rendered(data)[i];
      |row| == |data[i]| + 1 && ParseDecimal(row[0]) == i + 1 && row[1..] == data[i]
  {
    var row := Rendered(data)[i];
    assert row[0] == Decimal(i + 1);
    DecimalRoundTrip(i + 1);
  }

  // ---------------------------------------------------------------
  // Header labels and the table's visible state.
  // ---------------------------------------------------------------

  /** `setHeader(labels)`: label `i` is written into header cell `i`
      when that cell exists; extra labels are dropped and extra cells
      keep their text. */
  function SetLabels(ths: seq<string>, labels: seq<string>): (r: seq<string>)
    ensures |r| == |ths|
    ensures forall i | 0 <= i < |r| :: r[i] == if i < |labels| then labels[i] else ths[i]
  {
    if ths == [] then []
    else if labels == [] then ths
    else [labels[0]] + SetLabels(ths[1..], labels[1..])
  }

  /** Writing one more label. */
  lemma {:induction false} SetLabelsSnoc(ths: seq<string>, labels: seq<string>, x: string)
    ensures SetLabels(ths, labels + [x])
         == if |labels| < |ths| then SetLabels(ths, labels)[|labels| := x] else SetLabels(ths, labels)
  {
    var l := SetLabels(ths, labels + [x]);
    var r := if |labels| < |ths| then SetLabels(ths, labels)[|labels| := x] else SetLabels(ths, labels);
    var ls := labels + [x];
    assert |l| == |r| == |ths|;
    forall i | 0 <= i < |l| ensures l[i] == r[i] {
      assert l[i] == if i < |ls| then ls[i] else ths[i];
      assert i < |labels| ==> ls[i] == labels[i];
    }
  }

  /** A second `setHeader` with as many labels as the first overwrites
      it completely: what the first wrote leaves no trace. */
  lemma {:induction false} SetLabelsOverwrite(ths: seq<string>, a: seq<string>, b: seq<string>)
    requires |a| == |b|
    ensures SetLabels(SetLabels(ths, a), b) == SetLabels(ths, b)
  {
    var l := SetLabels(SetLabels(ths, a), b);
    var r := SetLabels(ths, b);
    forall i | 0 <= i < |l| ensures l[i] == r[i] {
      assert l[i] == if i < |b| then b[i] else SetLabels(ths, a)[i];
    }
  }

  /** With one label per cell the header reads exactly the labels. */
  lemma {:induction false} SetLabelsExact(ths: seq<string>, labels: seq<string>)
    requires |ths| == |labels|
    ensures SetLabels(ths, labels) == labels
  {
    var r := SetLabels(ths, labels);
    forall i | 0 <= i < |r| ensures r[i] == labels[i] {
    }
  }

  /** What the page shows of one table: the `selected` rows, the header
      cells' text, the table's `hide-advanced` class and its button's
      `active` class. */
  datatype View = View(selected: seq<bool>, headers: seq<string>, hideAdvanced: bool, toggleActive: bool)

  function NoneSelected(n: nat): (r: seq<bool>)
    ensures |r| == n && forall j | 0 <= j < n :: !r[j]
  {
    seq(n, j => false)
  }

  /** A click on row `i` (plan row `row`): only row `i` is selected and
      the header reads `Sr. No` and the row command's legend. */
  function RowClicked(v: View, row: seq<string>, i: nat): (r: View)
    ensures |r.selected| == |v.selected| && forall j | 0 <= j < |r.selected| :: r.selected[j] <==> j == i
    ensures r.headers == SetLabels(v.headers, HeadsFor(row))
    ensures r.hideAdvanced == v.hideAdvanced && r.toggleActive == v.toggleActive
  {
    v.(selected := seq(|v.selected|, j => j == i), headers := SetLabels(v.headers, HeadsFor(row)))
  }

  /** Selecting row `i` after clearing every row selects it alone. */
  lemma SelectOnly(n: nat, i: nat)
    requires i < n
    ensures NoneSelected(n)[i := true] == seq(n, j => j == i)
  {
  }

  /** A header-row click or a click outside: nothing selected and the
      default labels back. */
  function Reset(v: View): (r: View)
    ensures |r.selected| == |v.selected| && forall j | 0 <= j < |r.selected| :: !r.selected[j]
    ensures r.headers == SetLabels(v.headers, DefaultHeads())
    ensures r.hideAdvanced == v.hideAdvanced && r.toggleActive == v.toggleActive
  {
    v.(selected := NoneSelected(|v.selected|), headers := SetLabels(v.headers, DefaultHeads()))
  }

  /** A click on the Advanced button flips the table's and the button's
      classes and nothing else. */
  function Advanced(v: View): (r: View)
    ensures r.selected == v.selected && r.headers == v.headers
    ensures r.hideAdvanced != v.hideAdvanced && r.toggleActive != v.toggleActive
  {
    v.(hideAdvanced := !v.hideAdvanced, toggleActive := !v.toggleActive)
  }

  /** A reset forgets any earlier row click: the selection and the
      labels are those a reset gives from the state before the click. */
  lemma ResetForgetsRowClick(v: View, row: seq<string>, i: nat)
    ensures Reset(RowClicked(v, row, i)) == Reset(v)
  {
    SetLabelsOverwrite(v.headers, HeadsFor(row), DefaultHeads());
  }

  /** Two resets are one. */
  lemma ResetIdempotent(v: View)
    ensures Reset(Reset(v)) == Reset(v)
  {
    SetLabelsOverwrite(v.headers, DefaultHeads(), DefaultHeads());
  }

  /** With the page's 14 header cells, a reset shows exactly the default
      labels and a row click exactly the row's labels. */
  lemma FullHeaderLabels(v: View, row: seq<string>, i: nat)
    requires |v.headers| == |DefaultHeads()|
    ensures Reset(v).headers == DefaultHeads()
    ensures RowClicked(v, row, i).headers == HeadsFor(row)
  {
    SetLabelsExact(v.headers, DefaultHeads());
    SetLabelsExact(v.headers, HeadsFor(row));
  }

  /** Two presses of the Advanced button restore the view. */
  lemma AdvancedInvolution(v: View)
    ensures Advanced(Advanced(v)) == v
  {
  }

  // ---------------------------------------------------------------
  // Clicks on the page.
  // ---------------------------------------------------------------

  /** Where a click lands: a body row, the header row or some other
      place inside table `table` (1 or 2), the Advanced button of table
      `table`, or anywhere else on the page. */
  datatype Target =
    | RowOf(table: nat, row: nat)
    | HeaderOf(table: nat)
    | InTable(table: nat)
    | ToggleOf(table: nat)
    | Elsewhere

  /** `missionTable.contains(e.target)` for table `k`. */
  predicate Within(target: Target, k: nat) {
    match target
    case RowOf(j, _) => j == k
    case HeaderOf(j) => j == k
    case InTable(j) => j == k
    case _ => false
  }

  /** What one click does to table `k` (plan `data`): its own row,
      header-row or button listener, then its document listener, which
      resets unless the click was inside the table or on its button. */
  function AfterClick(v: View, data: seq<seq<string>>, hasHeaderRow: bool, hasToggle: bool,
                      k: nat, target: Target): (r: View)
    requires |v.selected| == |data|
    ensures |r.selected| == |data|
    ensures Within(target, k) ==> r.hideAdvanced == v.hideAdvanced && r.toggleActive == v.toggleActive
    ensures !Within(target, k) && !(target == ToggleOf(k) && hasToggle) ==> r == Reset(v)
    ensures target == ToggleOf(k) && hasToggle ==> r == Advanced(v)
  {
    match target
    case RowOf(j, i) => if j == k && i < |data| then RowClicked(v, data[i], i)
                        else if j == k then v else Reset(v)
    case HeaderOf(j) => if j == k && hasHeaderRow then Reset(v)
                        else if j == k then v else Reset(v)
    case InTable(j) => if j == k then v else Reset(v)
    case ToggleOf(j) => if j == k && hasToggle then Advanced(v) else Reset(v)
    case Elsewhere => Reset(v)
  }

  /** A click inside one table, or on its button, clears the selection
      of the other table and restores its default labels. */
  lemma OtherTableResets(v: View, data: seq<seq<string>>, hasHeaderRow: bool, hasToggle: bool,
                         k: nat, target: Target)
    requires |v.selected| == |data|
    requires target.RowOf? || target.HeaderOf? || target.InTable? || target.ToggleOf?
    requires target.table != k
    ensures AfterClick(v, data, hasHeaderRow, hasToggle, k, target) == Reset(v)
  {
  }

  /** A click on a row selects that row only, and the labels that show
      are those of the row's command. */
  lemma RowClickSelectsOne(v: View, data: seq<seq<string>>, hasHeaderRow: bool, hasToggle: bool,
                           k: nat, i: nat)
    requires |v.selected| == |data| && i < |data|
    ensures var r := AfterClick(v, data, hasHeaderRow, hasToggle, k, RowOf(k, i));
      && (forall j | 0 <= j < |data| :: r.selected[j] <==> j == i)
      && r.headers == SetLabels(v.headers, HeadsFor(data[i]))
  {
  }

  /** The markup a table starts from: the text of its header row's cells
      (`None` without a header row), its `hide-advanced` class and, when
      the Advanced button exists, its `active` class. */
  datatype Markup = Markup(headerRow: Option<seq<string>>, hideAdvanced: bool, toggle: Option<bool>)

  /** One mission table after `initMission` found it. */
  class MissionTable {
    const data: seq<seq<string>>
    const hasHeaderRow: bool
    const hasToggle: bool
    var rows: seq<seq<string>>
    var selected: seq<bool>
    var headers: seq<string>
    var hideAdvanced: bool
    var toggleActive: bool

    predicate Valid()
      reads this`rows, this`selected, this`headers
    {
      rows == Rendered(data) && |selected| == |rows| && (!hasHeaderRow ==> headers == [])
    }

    function Shown(): View
      reads this`selected, this`headers, this`hideAdvanced, this`toggleActive
    {
      View(selected, headers, hideAdvanced, toggleActive)
    }

    /** `initMission` on a table that exists: render the rows, none of
        them selected, and write the default labels. */
    constructor (data: seq<seq<string>>, markup: Markup)
      ensures this.data == data && Valid()
      ensures hasHeaderRow == markup.headerRow.Some? && hasToggle == markup.toggle.Some?
      ensures Shown() == View(NoneSelected(|data|),
                             match markup.headerRow { case Some(h) => SetLabels(h, DefaultHeads()) case None => [] },
                             markup.hideAdvanced,
                             match markup.toggle { case Some(a) => a case None => false })
    {
      this.data := data;
      hasHeaderRow := markup.headerRow.Some?;
      hasToggle := markup.toggle.Some?;
      headers := match markup.headerRow { case Some(h) => h case None => [] };
      hideAdvanced := markup.hideAdvanced;
      toggleActive := match markup.toggle { case Some(a) => a case None => false };
      rows := [];
      selected := [];
      new;
      RenderRows();
      selected := NoneSelected(|rows|);
      SetHeader(DefaultHeads());
    }

    /** `tbody.innerHTML = ''` and the `data.forEach` that appends one
        row per plan row: the serial cell, then each cell in order. */
    method RenderRows()
      modifies this`rows
      ensures rows == Rendered(data)
    {
      rows := [];
      var idx := 0;
      while idx < |data|
        invariant idx <= |data| && rows == Rendered(data[..idx])
      {
        var row := data[idx];
        var tr := [Decimal(idx + 1)];
        var c := 0;
        while c < |row|
          invariant c <= |row| && tr == [Decimal(idx + 1)] + row[..c]
        {
          tr := tr + [row[c]];
          c := c + 1;
        }
        assert row[..c] == row;
        rows := rows + [tr];
        idx := idx + 1;
      }
      assert data[..idx] == data;
    }

    /** `clearSelected()`: every row loses `selected`. */
    method ClearSelected()
      modifies this`selected
      ensures selected == NoneSelected(|old(selected)|)
    {
      var j := 0;
      while j < |selected|
        invariant j <= |selected| == |old(selected)|
        invariant forall m | 0 <= m < |selected| :: selected[m] == (m >= j && old(selected)[m])
      {
        selected := selected[j := false];
        j := j + 1;
      }
    }

    /** `setHeader(labels)`; without a header row nothing happens. */
    method SetHeader(labels: seq<string>)
      modifies this`headers
      ensures headers == if hasHeaderRow then SetLabels(old(headers), labels) else old(headers)
    {
      if !hasHeaderRow {
        return;
      }
      var i := 0;
      while i < |labels|
        invariant i <= |labels| && headers == SetLabels(old(headers), labels[..i])
      {
        SetLabelsSnoc(old(headers), labels[..i], labels[i]);
        assert labels[..i + 1] == labels[..i] + [labels[i]];
        if i < |headers| {
          headers := headers[i := labels[i]];
        }
        i := i + 1;
      }
      assert labels[..i] == labels;
    }

    /** The row listener: select row `i` alone and show its command's
        labels. */
    method RowClick(i: nat)
      requires Valid() && i < |rows|
      modifies this`selected, this`headers
      ensures Valid() && Shown() == RowClicked(old(Shown()), data[i], i)
    {
      ClearSelected();
      selected := selected[i := true];
      SelectOnly(|rows|, i);
      SetHeader(HeadsFor(data[i]));
    }

    /** The header-row listener and the outside-click reset. */
    method ResetTable()
      requires Valid()
      modifies this`selected, this`headers
      ensures Valid() && Shown() == Reset(old(Shown()))
    {
      ClearSelected();
      SetHeader(DefaultHeads());
    }

    /** The Advanced button's listener. */
    method AdvancedClick()
      modifies this`hideAdvanced, this`toggleActive
      ensures Shown() == Advanced(old(Shown()))
    {
      hideAdvanced := !hideAdvanced;
      toggleActive := !toggleActive;
    }

    /** One click on the page, as table `k` sees it: its own listeners
        first, then its document listener. */
    method Receive(k: nat, target: Target)
      requires Valid()
      modifies this`selected, this`headers, this`hideAdvanced, this`toggleActive
      ensures Valid()
      ensures Shown() == AfterClick(old(Shown()), data, hasHeaderRow, hasToggle, k, target)
    {
      match target {
        case RowOf(j, i) =>
          if j == k && i < |rows| {
            RowClick(i);
          }
        case HeaderOf(j) =>
          if j == k && hasHeaderRow {
            ResetTable();
          }
        case ToggleOf(j) =>
          if j == k && hasToggle {
            AdvancedClick();
          }
        case InTable(_) =>
        case Elsewhere =>
      }
      var within := Within(target, k);
      var onToggle := target == ToggleOf(k) && hasToggle;
      if !within && !onToggle {
        ResetTable();
      }
    }
  }

  /** The two `initMission` calls, with `data1` and `data2`; a table
      missing from the page is `null` and reacts to nothing. */
  class MissionPage {
    const first: MissionTable?
    const second: MissionTable?

    predicate Valid()
      reads first, second
    {
      && (first != null ==> first.Valid())
      && (second != null ==> second.Valid())
      && (first != null && second != null ==> first != second)
    }

    constructor (markup1: Option<Markup>, markup2: Option<Markup>)
      ensures Valid()
      ensures first == null <==> markup1.None?
      ensures second == null <==> markup2.None?
      ensures first != null ==> fresh(first) && first.data == Data1()
      ensures second != null ==> fresh(second) && second.data == Data2()
    {
      var t1: MissionTable? := null;
      var t2: MissionTable? := null;
      if markup1.Some? {
        t1 := new MissionTable(Data1(), markup1.value);
      }
      if markup2.Some? {
        t2 := new MissionTable(Data2(), markup2.value);
      }
      first := t1;
      second := t2;
    }

    /** A click anywhere: each table present reacts as `AfterClick`
        says. The tables' listeners touch disjoint state, so their order
        does not matter. */
    method Click(target: Target)
      requires Valid()
      modifies first, second
      ensures Valid()
      ensures first != null ==> first.Shown() == AfterClick(old(first.Shown()), first.data, first.hasHeaderRow,
                                                           first.hasToggle, 1, target)
      ensures second != null ==> second.Shown() == AfterClick(old(second.Shown()), second.data, second.hasHeaderRow,
                                                             second.hasToggle, 2, target)
    {
      if first != null {
        first.Receive(1, target);
      }
      if second != null {
        second.Receive(2, target);
      }
    }
  }
}
