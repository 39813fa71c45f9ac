/**
 * The figure update_graph returns: the traces chosen by select_graph_type, the
 * axis ranges computed over the last 100 points, and the rule by which a pan or
 * zoom reported by the renderer (its relayout map) replaces those ranges.
 */
module Graph {
  import opened Base
  import Store

  /** The display modes modelled. Candle is offered by the dropdown but has no implementation. */
  datatype GraphType = RealTime | Candle

  datatype Fill = NoFill | ToZeroY

  /** One `go.Scatter`: a named line of `y` values over the frame's time index `x`. */
  datatype Trace = Trace(name: string, mode: string, fill: Fill, x: seq<int>, y: seq<int>)

  /** The frame's index: its timestamps, in order. */
  function TimeIndex(frame: seq<Sample>): (xs: seq<int>)
    ensures |xs| == |frame| && forall k :: 0 <= k < |xs| ==> xs[k] == frame[k].timestamp
  {
    seq(|frame|, k requires 0 <= k < |frame| => frame[k].timestamp)
  }

  function SizeColumn(frame: seq<Sample>): (ys: seq<int>)
    ensures |ys| == |frame| && forall k :: 0 <= k < |ys| ==> ys[k] == frame[k].size
  {
    seq(|frame|, k requires 0 <= k < |frame| => frame[k].size)
  }

  function UsedColumn(frame: seq<Sample>): (ys: seq<int>)
    ensures |ys| == |frame| && forall k :: 0 <= k < |ys| ==> ys[k] == frame[k].used
  {
    seq(|frame|, k requires 0 <= k < |frame| => frame[k].used)
  }

  /** The two RealTime traces: `size` as a line, `used` as a filled line with markers. */
  function RealTimeTraces(frame: seq<Sample>): (traces: seq<Trace>)
    ensures |traces| == 2
    ensures traces[0].name == "size" && traces[0].mode == "lines" && traces[0].fill == NoFill
    ensures traces[1].name == "used" && traces[1].mode == "lines+markers" && traces[1].fill == ToZeroY
    ensures forall t :: t in traces ==> |t.x| == |t.y| == |frame|
    ensures forall t, k :: t in traces && 0 <= k < |frame| ==> t.x[k] == frame[k].timestamp
    ensures forall k :: 0 <= k < |frame| ==> traces[0].y[k] == frame[k].size && traces[1].y[k] == frame[k].used
  {
    [Trace("size", "lines", NoFill, TimeIndex(frame), SizeColumn(frame)),
     Trace("used", "lines+markers", ToZeroY, TimeIndex(frame), UsedColumn(frame))]
  }

  /**
   * select_graph_type: RealTime returns the frame unchanged with the `size` and
   * `used` traces; Candle falls through every branch and returns None.
   */
  method SelectGraphType(frame: seq<Sample>, selected: GraphType)
    returns (r: Option<(seq<Sample>, seq<Trace>)>)
    ensures r.Some? <==> selected == RealTime
    ensures r.Some? ==> r.value.0 == frame && |r.value.1| == 2
    ensures r.Some? ==> r.value.1[0].name == "size" && r.value.1[1].name == "used"
    ensures r.Some? ==> forall t :: t in r.value.1 ==>
      |t.x| == |t.y| == |frame| && forall k :: 0 <= k < |frame| ==> t.x[k] == frame[k].timestamp
    ensures r.Some? ==> r.value.1 == RealTimeTraces(frame)
  {
    var data := [Trace("size", "lines", NoFill, TimeIndex(frame), SizeColumn(frame))];
    if selected == RealTime {
      data := data + [Trace("used", "lines+markers", ToZeroY, TimeIndex(frame), UsedColumn(frame))];
      return Some((frame, data));
    }
    return None;
  }

  // ---------------------------------------------------------------------------
  // Layout and computed ranges
  // ---------------------------------------------------------------------------

  /** An axis range: bounds computed from the data, or whatever the relayout map held (None if absent). */
  datatype AxisRange<T, V> = Span(low: T, high: T) | UserRange(value: Option<V>)

  datatype Margin = Margin(left: int, right: int, bottom: int, top: int)

  datatype Legend = Legend(orientation: string, yAnchor: string, xAnchor: string, y: real, x: real)

  datatype Layout<V> = Layout(margin: Margin, xRange: AxisRange<int, V>, rangeSliderVisible: bool,
                              yRange: AxisRange<real, V>, legend: Legend)

  datatype Figure<V> = Figure(data: seq<Trace>, layout: Layout<V>)

  const MARGIN: Margin := Margin(45, 20, 30, 20)

  const LEGEND: Legend := Legend("h", "top", "center", 1.1, 0.5)

  /** How many of the newest points are considered visible. */
  const MAX_POINT: nat := 100

  /** `dff[-100:]`: the last (at most) 100 rows of the frame. */
  function Visible(frame: seq<Sample>): (show: seq<Sample>)
    ensures |show| == Min(MAX_POINT, |frame|)
    ensures forall k :: 0 <= k < |show| ==> show[k] == frame[|frame| - |show| + k]
  {
    frame[|frame| - Min(MAX_POINT, |frame|)..]
  }

  function Max(a: int, b: int): int {
    if a >= b then a else b
  }

  /** `show_df.max().max()`: the largest value in either column. */
  function Peak(rows: seq<Sample>): (p: int)
    requires rows != []
    ensures forall k :: 0 <= k < |rows| ==> rows[k].size <= p && rows[k].used <= p
    ensures exists k :: 0 <= k < |rows| && (rows[k].size == p || rows[k].used == p)
  {
    var head := Max(rows[0].size, rows[0].used);
    if |rows| == 1 then head
    else
      var rest := Peak(rows[1..]);
      assert forall k :: 1 <= k < |rows| ==> rows[k] == rows[1..][k - 1];
      Max(head, rest)
  }

  /**
   * The layout update_graph builds before looking at the relayout map: x from the
   * 10th-from-last visible point (the first point when there are at most 10) to
   * one interval past the last point; y from 0 to 5% above the largest visible value.
   */
  function ComputedLayout<V>(frame: seq<Sample>): (layout: Layout<V>)
    requires frame != []
    ensures layout.margin == MARGIN && !layout.rangeSliderVisible && layout.legend == LEGEND
    ensures layout.xRange.Span? && layout.yRange.Span?
    ensures layout.xRange.low == frame[|frame| - Min(10, |frame|)].timestamp
    ensures layout.xRange.high == frame[|frame| - 1].timestamp + INTERVAL_SEC
    ensures layout.yRange.low == 0.0
  {
    var show := Visible(frame);
    var low := if |frame| > 10 then show[|show| - 10].timestamp else frame[0].timestamp;
    Layout(MARGIN,
           Span(low, show[|show| - 1].timestamp + INTERVAL_SEC),
           false,
           Span(0.0, Peak(show) as real * 1.05),
           LEGEND)
  }

  /**
   * On an ascending frame the computed x-range shows exactly the newest ten
   * points (all of them when there are ten or fewer), and ends one sampling
   * interval after the newest.
   */
  lemma XRangeShowsNewestTen<V>(frame: seq<Sample>)
    requires frame != [] && StrictlyAscending(frame)
    ensures ComputedLayout<V>(frame).xRange.Span?
    ensures var x := ComputedLayout<V>(frame).xRange;
      && x.high == frame[|frame| - 1].timestamp + INTERVAL_SEC
      && (forall k :: |frame| - Min(10, |frame|) <= k < |frame| ==> x.low <= frame[k].timestamp < x.high)
      && (forall k :: 0 <= k < |frame| - 10 ==> frame[k].timestamp < x.low)
  {
    var n := |frame|;
    var show := Visible(frame);
    assert show[|show| - 1] == frame[n - 1];
    var first := n - Min(10, n);
    var low := frame[first].timestamp;
    if n > 10 {
      assert show[|show| - 10] == frame[n - 10];
    }
    assert ComputedLayout<V>(frame).xRange == Span(low, frame[n - 1].timestamp + INTERVAL_SEC);
    forall k | first <= k < n
      ensures low <= frame[k].timestamp <= frame[n - 1].timestamp
    {
      if first < k { assert frame[first].timestamp < frame[k].timestamp; }
      if k < n - 1 { assert frame[k].timestamp < frame[n - 1].timestamp; }
    }
    forall k | 0 <= k < n - 10
      ensures frame[k].timestamp < low
    {
      assert frame[k].timestamp < frame[first].timestamp;
    }
  }

  /**
   * The computed y-range starts at 0 and ends 5% above a value some visible point
   * has; when the visible values are non-negative it contains all of them.
   */
  lemma YRangeHasHeadroom<V>(frame: seq<Sample>)
    requires frame != []
    ensures ComputedLayout<V>(frame).yRange.Span?
    ensures var y := ComputedLayout<V>(frame).yRange;
      && y.low == 0.0
      && (exists r :: r in Visible(frame) && (y.high == r.size as real * 1.05 || y.high == r.used as real * 1.05))
      && (forall r :: r in Visible(frame) ==> r.size as real * 1.05 <= y.high && r.used as real * 1.05 <= y.high)
      && ((forall r :: r in Visible(frame) ==> 0 <= r.size && 0 <= r.used) ==>
           forall r :: r in Visible(frame) ==> r.size as real <= y.high && r.used as real <= y.high)
  {
    var show := Visible(frame);
    var p := Peak(show);
    assert ComputedLayout<V>(frame).yRange == Span(0.0, p as real * 1.05);
    var k :| 0 <= k < |show| && (show[k].size == p || show[k].used == p);
    assert show[k] in show;
    forall r | r in show ensures r.size as real * 1.05 <= p as real * 1.05 && r.used as real * 1.05 <= p as real * 1.05 {
      var j :| 0 <= j < |show| && show[j] == r;
    }
    if forall r :: r in show ==> 0 <= r.size && 0 <= r.used {
      assert 0 <= p;
      forall r | r in show ensures r.size as real <= p as real * 1.05 && r.used as real <= p as real * 1.05 {
        var j :| 0 <= j < |show| && show[j] == r;
        BelowHeadroom(r.size, p);
        BelowHeadroom(r.used, p);
      }
    }
  }

  /** A value between 0 and the peak lies below the peak plus 5 %. */
  lemma BelowHeadroom(v: int, p: int)
    requires 0 <= v <= p
    ensures v as real <= p as real * 1.05
  {
  }

  // ---------------------------------------------------------------------------
  // Relayout
  // ---------------------------------------------------------------------------

  /** The relayout keys that mean the user changed an axis range. */
  const RANGE_KEYS: seq<string> := ["xaxis.range[0]", "xaxis.range[1]", "yaxis.range[0]", "yaxis.range[1]"]

  /** `any(item in relayout_data for item in items)`. */
  predicate Relayouted<V>(relayout: map<string, V>) {
    exists i :: 0 <= i < |RANGE_KEYS| && RANGE_KEYS[i] in relayout
  }

  /** `relayout_data.get(key)`. */
  function Get<V>(relayout: map<string, V>, key: string): (r: Option<V>)
    ensures r.Some? <==> key in relayout
  {
    if key in relayout then Some(relayout[key]) else None
  }

  /** The generator under `any`: look at the keys in order and stop at the first one present. */
  method IsRelayouted<V>(relayout: map<string, V>) returns (b: bool)
    ensures b == Relayouted(relayout)
  {
    for i := 0 to |RANGE_KEYS|
      invariant forall j :: 0 <= j < i ==> RANGE_KEYS[j] !in relayout
    {
      if RANGE_KEYS[i] in relayout {
        return true;
      }
    }
    return false;
  }

  /**
   * The layout after the relayout check: unchanged when no range key is present;
   * otherwise both ranges become the map's `xaxis.range` and `yaxis.range`
   * entries (None where the exact key is missing).
   */
  function Reconcile<V>(computed: Layout<V>, relayout: map<string, V>): (layout: Layout<V>)
    ensures layout.margin == computed.margin && layout.legend == computed.legend
    ensures layout.rangeSliderVisible == computed.rangeSliderVisible
    ensures !Relayouted(relayout) ==> layout == computed
    ensures Relayouted(relayout) ==>
      && layout.xRange == UserRange(if "xaxis.range" in relayout then Some(relayout["xaxis.range"]) else None)
      && layout.yRange == UserRange(if "yaxis.range" in relayout then Some(relayout["yaxis.range"]) else None)
  {
    if !Relayouted(relayout) then computed
    else computed.(xRange := UserRange(Get(relayout, "xaxis.range")),
                   yRange := UserRange(Get(relayout, "yaxis.range")))
  }

  /** Why update_graph raises instead of returning a figure. */
  datatype GraphError =
    | NothingToUnpack // select_graph_type returned None (TypeError on unpacking)
    | NoRows          // the window is empty (IndexError on dff.index[0])

  /**
   * update_graph: load the window, select the traces, compute the ranges, then
   * overwrite both ranges in place when the relayout map holds a range key.
   */
  method UpdateGraph<V>(table: Store.Table, selected: GraphType, relayout: map<string, V>)
    returns (r: Result<Figure<V>, GraphError>)
    requires table.Valid()
    ensures selected == Candle ==> r == Err(NothingToUnpack)
    ensures selected == RealTime && Store.LoadWindow(table.rows) == [] ==> r == Err(NoRows)
    ensures selected == RealTime && Store.LoadWindow(table.rows) != [] ==>
      var frame := Store.LoadWindow(table.rows);
      r == Ok(Figure(RealTimeTraces(frame), Reconcile(ComputedLayout(frame), relayout)))
  {
    var df := Store.LoadWindow(table.rows);
    var selectedData := SelectGraphType(df, selected);
    if selectedData.None? {
      return Err(NothingToUnpack);
    }
    var dff, data := selectedData.value.0, selectedData.value.1;
    if dff == [] {
      return Err(NoRows);
    }
    var fig := Figure(data, ComputedLayout(dff));
    var relayouted := IsRelayouted(relayout);
    if !relayouted {
      return Ok(fig);
    }
    fig := fig.(layout := fig.layout.(xRange := UserRange(Get(relayout, "xaxis.range"))));
    fig := fig.(layout := fig.layout.(yRange := UserRange(Get(relayout, "yaxis.range"))));
    r := Ok(fig);
  }

  /**
   * With a range key, the computed ranges are ignored entirely: two computed
   * layouts end with the same ranges, and margin, range slider and legend stay.
   */
  lemma RangeKeyOverridesBothAxes<V>(a: Layout<V>, b: Layout<V>, relayout: map<string, V>, i: nat)
    requires i < |RANGE_KEYS| && RANGE_KEYS[i] in relayout
    ensures Reconcile(a, relayout).xRange == Reconcile(b, relayout).xRange
    ensures Reconcile(a, relayout).yRange == Reconcile(b, relayout).yRange
    ensures Reconcile(a, relayout).xRange == UserRange(Get(relayout, "xaxis.range"))
    ensures Reconcile(a, relayout).yRange == UserRange(Get(relayout, "yaxis.range"))
    ensures Reconcile(a, relayout).margin == a.margin && Reconcile(a, relayout).legend == a.legend
    ensures Reconcile(a, relayout).rangeSliderVisible == a.rangeSliderVisible
  {
  }

  /**
   * A zoom reported only through the indexed keys `xaxis.range[0]` and
   * `xaxis.range[1]` clears both ranges: neither `xaxis.range` nor
   * `yaxis.range` is in the map, so both become None.
   */
  lemma IndexedKeysClearRanges<V>(computed: Layout<V>, lo: V, hi: V)
    ensures var m := map["xaxis.range[0]" := lo, "xaxis.range[1]" := hi];
      Reconcile(computed, m).xRange == UserRange(None) && Reconcile(computed, m).yRange == UserRange(None)
  {
    var m := map["xaxis.range[0]" := lo, "xaxis.range[1]" := hi];
    assert RANGE_KEYS[0] in m;
    assert "xaxis.range" !in m by {
      assert "xaxis.range" != "xaxis.range[0]" by {
        assert |"xaxis.range"| != |"xaxis.range[0]"|;
      }
      assert "xaxis.range" != "xaxis.range[1]" by {
        assert |"xaxis.range"| != |"xaxis.range[1]"|;
      }
    }
    assert "yaxis.range" !in m by {
      assert "yaxis.range" != "xaxis.range[0]" by {
        assert |"yaxis.range"| != |"xaxis.range[0]"|;
      }
      assert "yaxis.range" != "xaxis.range[1]" by {
        assert |"yaxis.range"| != |"xaxis.range[1]"|;
      }
    }
  }

  /**
   * End to end, for a table in key order and the RealTime mode with no range key:
   * the refreshed figure's x-range shows the ten newest loaded points.
   */
  lemma RefreshShowsNewestTen<V>(rows: seq<Sample>, relayout: map<string, V>)
    requires StrictlyAscending(rows) && rows != []
    requires !Relayouted(relayout)
    ensures var frame := Store.LoadWindow(rows);
      var x := Reconcile(ComputedLayout<V>(frame), relayout).xRange;
      x.Span? && forall k :: |frame| - Min(10, |frame|) <= k < |frame| ==> x.low <= frame[k].timestamp < x.high
  {
    var frame := Store.LoadWindow(rows);
    Store.WindowAscending(rows);
    XRangeShowsNewestTen<V>(frame);
  }
}
