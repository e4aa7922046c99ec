/**
 * The deterministic part of the FOPA runner: the test record handed to
 * FOPA, the name of the heatmap FOPA writes, the best position read off that
 * heatmap, and the fallback to the object's own corner.
 *
 * The directory of heatmaps is a map from heatmap key to grayscale array;
 * file copies, the subprocess runs and image decoding are not modelled.
 */
module FopaRunner {
  import opened Wrappers
  import opened Pixels

  // ------------------------------------------------------- decimal strings

  predicate IsDigit(ch: char) { '0' <= ch <= '9' }

  predicate AllDigits(s: string) { forall i :: 0 <= i < |s| ==> IsDigit(s[i]) }

  function DigitChar(d: nat): (ch: char)
    requires d < 10
    ensures IsDigit(ch) && (ch as int) - ('0' as int) == d
  {
    "0123456789"[d]
  }

  /** Decimal digits of n without leading zeros, as Python's `str` gives them. */
  function NatToString(n: nat): (s: string)
    ensures |s| > 0 && AllDigits(s)
    ensures s[0] == '0' ==> n == 0
    decreases n
  {
    if n < 10 then [DigitChar(n)] else NatToString(n / 10) + [DigitChar(n % 10)]
  }

  /** Python's `f"{n}"` for an integer. */
  function IntToString(n: int): string
  {
    if n < 0 then "-" + NatToString(-n) else NatToString(n)
  }

  /** The number a string of decimal digits denotes. */
  function DigitsValue(s: string): nat
    requires AllDigits(s)
  {
    if s == [] then 0 else DigitsValue(s[..|s| - 1]) * 10 + ((s[|s| - 1] as int) - ('0' as int))
  }

  function ParseInt(s: string): int
    requires |s| > 0 && (s[0] == '-' ==> AllDigits(s[1..])) && (s[0] != '-' ==> AllDigits(s))
  {
    if s[0] == '-' then 0 - DigitsValue(s[1..]) else DigitsValue(s)
  }

  lemma {:induction false} NatToStringRoundTrip(n: nat)
    ensures DigitsValue(NatToString(n)) == n
    decreases n
  {
    if n >= 10 {
      var s := NatToString(n);
      assert s[..|s| - 1] == NatToString(n / 10);
      NatToStringRoundTrip(n / 10);
    }
  }

  /** Formatting an integer can be undone, so different sizes give different text. */
  lemma IntToStringRoundTrip(n: int)
    ensures var s := IntToString(n);
      |s| > 0 && (s[0] == '-' ==> AllDigits(s[1..])) && (s[0] != '-' ==> AllDigits(s)) && ParseInt(s) == n
  {
    var s := IntToString(n);
    if n < 0 {
      var t := NatToString(-n);
      NatToStringRoundTrip(-n);
      assert s == "-" + t;
      assert s[1..] == t;
      assert t[0] != '-';
    } else {
      NatToStringRoundTrip(n);
      assert s[0] != '-';
    }
  }

  lemma IntToStringNoUnderscore(n: int)
    ensures forall i :: 0 <= i < |IntToString(n)| ==> IntToString(n)[i] != '_'
  {
    if n < 0 {
      assert IntToString(n)[1..] == NatToString(-n);
    }
  }

  // ------------------------------------------------------------- heatmaps

  /** `f"{ann_id}_1_{new_w}_{new_h}_{scale}"`; the scale is given as its text. */
  function HeatmapKey(annId: string, newW: int, newH: int, scaleText: string): string
  {
    annId + ("_1_" + (IntToString(newW) + ("_" + (IntToString(newH) + ("_" + scaleText)))))
  }

  lemma PrefixCancel(p: string, x: string, y: string)
    requires p + x == p + y
    ensures x == y
  {
    assert x == (p + x)[|p|..];
    assert y == (p + y)[|p|..];
  }

  /** Position of the first underscore of s, or |s| when there is none. */
  function UnderscoreIndex(s: string): nat
  {
    if s == [] || s[0] == '_' then 0 else 1 + UnderscoreIndex(s[1..])
  }

  lemma {:induction false} UnderscoreAfterWord(a: string, b: string)
    requires forall i :: 0 <= i < |a| ==> a[i] != '_'
    ensures UnderscoreIndex(a + ("_" + b)) == |a|
  {
    if a != [] {
      assert (a + ("_" + b))[1..] == a[1..] + ("_" + b);
      UnderscoreAfterWord(a[1..], b);
    }
  }

  /** Splitting at the first underscore: word + "_" + rest is read back uniquely. */
  lemma SplitAtUnderscore(a1: string, b1: string, a2: string, b2: string)
    requires forall i :: 0 <= i < |a1| ==> a1[i] != '_'
    requires forall i :: 0 <= i < |a2| ==> a2[i] != '_'
    requires a1 + ("_" + b1) == a2 + ("_" + b2)
    ensures a1 == a2 && b1 == b2
  {
    var m := a1 + ("_" + b1);
    UnderscoreAfterWord(a1, b1);
    UnderscoreAfterWord(a2, b2);
    assert a1 == m[..|a1|] && a2 == m[..|a2|];
    PrefixCancel(a1, "_" + b1, "_" + b2);
    PrefixCancel("_", b1, b2);
  }

  /** For a fixed object and scale, the heatmap key tells the requested size apart. */
  lemma HeatmapKeyDeterminesSize(annId: string, w1: int, h1: int, w2: int, h2: int, scaleText: string)
    requires HeatmapKey(annId, w1, h1, scaleText) == HeatmapKey(annId, w2, h2, scaleText)
    ensures w1 == w2 && h1 == h2
  {
    var t1 := IntToString(h1) + ("_" + scaleText);
    var t2 := IntToString(h2) + ("_" + scaleText);
    PrefixCancel(annId, "_1_" + (IntToString(w1) + ("_" + t1)), "_1_" + (IntToString(w2) + ("_" + t2)));
    PrefixCancel("_1_", IntToString(w1) + ("_" + t1), IntToString(w2) + ("_" + t2));
    IntToStringNoUnderscore(w1);
    IntToStringNoUnderscore(w2);
    IntToStringNoUnderscore(h1);
    IntToStringNoUnderscore(h2);
    SplitAtUnderscore(IntToString(w1), t1, IntToString(w2), t2);
    SplitAtUnderscore(IntToString(h1), scaleText, IntToString(h2), scaleText);
    IntToStringRoundTrip(w1);
    IntToStringRoundTrip(w2);
    IntToStringRoundTrip(h1);
    IntToStringRoundTrip(h2);
  }

  /** Cell (row, col) holds the first maximum of the array in row-major order,
      the cell `np.unravel_index(np.argmax(arr), arr.shape)` names. */
  predicate IsFirstMaxCell(arr: array2<uint8>, row: int, col: int)
    reads arr
  {
    0 <= row < arr.Length0 && 0 <= col < arr.Length1 &&
    (forall r, c :: 0 <= r < arr.Length0 && 0 <= c < arr.Length1 ==> arr[r, c] <= arr[row, col]) &&
    (forall r, c :: 0 <= r < arr.Length0 && 0 <= c < arr.Length1 && (r < row || (r == row && c < col)) ==>
       arr[r, c] < arr[row, col])
  }

  /** At most one cell is the first maximum, so the position read off a heatmap is determined. */
  lemma FirstMaxCellUnique(arr: array2<uint8>, r1: int, c1: int, r2: int, c2: int)
    requires IsFirstMaxCell(arr, r1, c1) && IsFirstMaxCell(arr, r2, c2)
    ensures r1 == r2 && c1 == c2
  {
    assert arr[r1, c1] <= arr[r2, c2] && arr[r2, c2] <= arr[r1, c1];
  }

  /** Row-major scan for the first maximal cell. */
  method ArgMax2D(arr: array2<uint8>) returns (row: nat, col: nat)
    requires arr.Length0 > 0 && arr.Length1 > 0
    ensures row < arr.Length0 && col < arr.Length1
    ensures forall r, c :: 0 <= r < arr.Length0 && 0 <= c < arr.Length1 ==> arr[r, c] <= arr[row, col]
    ensures forall r, c :: 0 <= r < arr.Length0 && 0 <= c < arr.Length1 && (r < row || (r == row && c < col)) ==>
      arr[r, c] < arr[row, col]
  {
    row, col := 0, 0;
    for i := 0 to arr.Length0
      invariant row < arr.Length0 && col < arr.Length1
      invariant i == 0 ==> row == 0 && col == 0
      invariant i > 0 ==> row < i
      invariant forall r, c :: 0 <= r < i && 0 <= c < arr.Length1 ==> arr[r, c] <= arr[row, col]
      invariant forall r, c :: 0 <= r < i && 0 <= c < arr.Length1 && (r < row || (r == row && c < col)) ==>
        arr[r, c] < arr[row, col]
    {
      for j := 0 to arr.Length1
        invariant row < arr.Length0 && col < arr.Length1
        invariant (i == 0 && j == 0) ==> row == 0 && col == 0
        invariant row < i || (row == i && col < j) || (i == 0 && j == 0)
        invariant forall r, c :: 0 <= r < arr.Length0 && 0 <= c < arr.Length1 && (r < i || (r == i && c < j)) ==>
          arr[r, c] <= arr[row, col]
        invariant forall r, c ::
          (0 <= r < arr.Length0 && 0 <= c < arr.Length1 && (r < i || (r == i && c < j)) &&
           (r < row || (r == row && c < col))) ==> arr[r, c] < arr[row, col]
      {
        if arr[i, j] > arr[row, col] {
          row, col := i, j;
        }
      }
    }
  }

  /** `get_best_position_from_heatmap`: None when FOPA wrote no heatmap under
      the key, otherwise the (column, row) of the first brightest pixel. */
  method BestPositionFromHeatmap(heatmaps: map<string, array2<uint8>>, annId: string, newW: int, newH: int,
                                 scaleText: string)
    returns (pos: Option<(int, int)>)
    requires var key := HeatmapKey(annId, newW, newH, scaleText);
      key in heatmaps ==> heatmaps[key].Length0 > 0 && heatmaps[key].Length1 > 0
    ensures pos.None? <==> HeatmapKey(annId, newW, newH, scaleText) !in heatmaps
    ensures pos.Some? ==> IsFirstMaxCell(heatmaps[HeatmapKey(annId, newW, newH, scaleText)], pos.value.1, pos.value.0)
  {
    var key := HeatmapKey(annId, newW, newH, scaleText);
    if key !in heatmaps {
      return None;
    }
    var arr := heatmaps[key];
    var y, x := ArgMax2D(arr);
    pos := Some((x, y));
  }

  // ----------------------------------------------------------- test record

  /** One entry of FOPA's `test_pair_new.json`. */
  datatype TestEntry = TestEntry(
    id: string, scID: string, annID: string, bg: string, fg: string, mask: string,
    fgClass: string, compositeFg: string, newWidth: int, newHeight: int, scale: real,
    posLabel: seq<seq<int>>, negLabel: seq<seq<int>>)

  /** `write_fopa_test_json`, without the file write: the list it dumps. */
  function TestJson(annId: string, scId: string, newW: int, newH: int, scale: real, posLabel: seq<int>)
    : (entries: seq<TestEntry>)
    ensures |entries| == 1
    ensures entries[0].id == "test1" && entries[0].mask == "" && entries[0].fgClass == "object"
    ensures entries[0].posLabel == [posLabel] && entries[0].negLabel == [[50, 50]]
    ensures entries[0].annID == annId && entries[0].scID == scId
    ensures entries[0].bg == scId + ".jpg" && entries[0].fg == annId + ".jpg" && entries[0].compositeFg == entries[0].fg
    ensures entries[0].newWidth == newW && entries[0].newHeight == newH && entries[0].scale == scale
  {
    [TestEntry("test1", scId, annId, scId + ".jpg", annId + ".jpg", "", "object", annId + ".jpg",
               newW, newH, scale, [posLabel], [[50, 50]])]
  }

  /** The fixed request of `run_fopa_selection`. */
  const AnnId: string := "3"
  const ScId: string := "000000000001"
  const NewW: int := 200
  const NewH: int := 100
  const Scale: real := 0.6
  /** Python's `str(0.6)`. */
  const ScaleText: string := "0.6"

  /** The heatmap `run_fopa_selection` reads is the file FOPA names after this request. */
  lemma SelectionKey()
    ensures HeatmapKey(AnnId, NewW, NewH, ScaleText) == "3_1_200_100_0.6"
  {
    assert NatToString(200) == "200" by {
      assert NatToString(2) == "2" && NatToString(20) == "20";
    }
    assert NatToString(100) == "100" by {
      assert NatToString(1) == "1" && NatToString(10) == "10";
    }
  }

  /**
   * `run_fopa_selection` after FOPA has run: `heatmaps` is what FOPA left in
   * its heatmap directory. Returns the record written for FOPA and the
   * position: the heatmap's best pixel when a heatmap exists (even (0, 0)),
   * the box's own corner (bbox[0], bbox[1]) otherwise.
   */
  method RunFopaSelection(heatmaps: map<string, array2<uint8>>, bbox: seq<int>)
    returns (written: seq<TestEntry>, pos: (int, int))
    requires |bbox| >= 2
    requires var key := HeatmapKey(AnnId, NewW, NewH, ScaleText);
      key in heatmaps ==> heatmaps[key].Length0 > 0 && heatmaps[key].Length1 > 0
    ensures written == TestJson(AnnId, ScId, NewW, NewH, Scale, [bbox[0], bbox[1]])
    ensures |written| == 1 && written[0].posLabel == [[bbox[0], bbox[1]]] && written[0].negLabel == [[50, 50]]
    ensures written[0].newWidth == 200 && written[0].newHeight == 100 && written[0].scale == 0.6
    ensures var key := HeatmapKey(AnnId, NewW, NewH, ScaleText);
      if key in heatmaps then IsFirstMaxCell(heatmaps[key], pos.1, pos.0) else pos == (bbox[0], bbox[1])
  {
    var posLabel := [bbox[0], bbox[1]];
    written := TestJson(AnnId, ScId, NewW, NewH, Scale, posLabel);
    var bestPos := BestPositionFromHeatmap(heatmaps, AnnId, NewW, NewH, ScaleText);
    pos := if bestPos.Some? then bestPos.value else (bbox[0], bbox[1]);
  }
}
