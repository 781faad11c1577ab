/** `deduplicate_columns`: rewrites repeated header names in place.

    A cell is compared under its key: a missing, empty or white-space-only
    cell has the key "Unnamed", any other cell its own text. The dictionary
    `seen` counts, per key, the cells visited so far. A cell whose key is
    already in `seen` has that count incremented and is overwritten with
    `key + "_" + str(count)`; a cell whose key is new is left as it is (a
    first blank cell stays blank) and its count starts at 1. The names
    written are never entered into `seen`. */
module Headers {
  import opened Tables
  import opened Text

  const Placeholder: string := "Unnamed"

  /** The name a cell is looked up under in `seen`. */
  function Key(c: Cell): string {
    if c.None? || c.value == "" || AllSpace(c.value) then Placeholder else c.value
  }

  /** The key is the placeholder exactly for a missing cell, a white-space-only
      cell, and a cell that literally reads "Unnamed"; otherwise it is the text. */
  lemma KeyIsPlaceholderIff(c: Cell)
    ensures Key(c) == Placeholder <==> c.None? || AllSpace(c.value) || c.value == Placeholder
    ensures Key(c) != Placeholder ==> c == Some(Key(c))
  {
  }

  /** A cell holding text that is not blank and not "Unnamed" is looked up
      under that text. */
  lemma KeyOfText(s: string)
    requires s != [] && !IsSpace(s[0]) && s != Placeholder
    ensures Key(Some(s)) == s
  {
  }

  /** The loop's own test `not col or col.strip() == ''` (`not col` holds for
      `None` and for "") picks the same key. */
  lemma KeyByStrip(c: Cell)
    ensures Key(c) == if c.None? || c.value == "" || Strip(c.value) == "" then Placeholder else c.value
  {
    if c.Some? {
      StripEmptyIff(c.value);
    }
  }

  /** The dictionary `seen` once the loop has visited `cols`. */
  function Seen(cols: seq<Cell>): map<string, nat> {
    if cols == [] then map[]
    else
      var seen := Seen(cols[..|cols| - 1]);
      var k := Key(cols[|cols| - 1]);
      if k in seen then seen[k := seen[k] + 1] else seen[k := 1]
  }

  /** What the loop leaves at a position holding `c`, given `seen` before it. */
  function Renamed(seen: map<string, nat>, c: Cell): Cell {
    var k := Key(c);
    if k in seen then Some(k + "_" + NatToString(seen[k] + 1)) else c
  }

  /** The list `deduplicate_columns` returns for the header `cols`: each cell
      as the loop leaves it, given the `seen` of the cells before it. */
  function Deduplicated(cols: seq<Cell>): seq<Cell> {
    seq(|cols|, i requires 0 <= i < |cols| => Renamed(Seen(cols[..i]), cols[i]))
  }

  /** The number of cells of `cols` whose key is `k`. */
  function Occurrences(cols: seq<Cell>, k: string): nat {
    if cols == [] then 0
    else Occurrences(cols[..|cols| - 1], k) + (if Key(cols[|cols| - 1]) == k then 1 else 0)
  }

  lemma {:induction false} OccurrencesPositiveIff(cols: seq<Cell>, n: nat, k: string)
    requires n <= |cols|
    ensures Occurrences(cols[..n], k) > 0 <==> exists j :: 0 <= j < n && Key(cols[j]) == k
  {
    if n > 0 {
      OccurrencesPositiveIff(cols, n - 1, k);
      assert cols[..n][..n - 1] == cols[..n - 1];
    }
  }

  /** After the loop, `seen` holds exactly the keys that occur, each mapped to
      its number of occurrences. */
  lemma {:induction false} SeenCounts(cols: seq<Cell>, k: string)
    ensures k in Seen(cols) <==> Occurrences(cols, k) > 0
    ensures k in Seen(cols) ==> Seen(cols)[k] == Occurrences(cols, k)
  {
    if cols != [] {
      SeenCounts(cols[..|cols| - 1], k);
    }
  }

  /** The cell at position i: left as given when its key has not occurred at an
      earlier position; otherwise, as the j-th repeat of key k (j >= 1 earlier
      cells with that key), rewritten to k + "_" + str(j + 1). */
  lemma DeduplicatedAt(cols: seq<Cell>, i: nat)
    requires i < |cols|
    ensures var k := Key(cols[i]);
            var j := Occurrences(cols[..i], k);
            Deduplicated(cols)[i] == if j == 0 then cols[i] else Some(k + "_" + NatToString(j + 1))
  {
    SeenCounts(cols[..i], Key(cols[i]));
  }

  /** A rewritten name always differs from the cell it replaces. */
  lemma RewriteDiffers(c: Cell, n: nat)
    ensures Some(Key(c) + "_" + NatToString(n)) != c
  {
    var k := Key(c);
    var r := k + "_" + NatToString(n);
    KeyIsPlaceholderIff(c);
    assert !AllSpace(k) by {
      if k == Placeholder {
        assert !IsSpace(k[0]);
      } else {
        StripEmptyIff(c.value);
      }
    }
    var j :| 0 <= j < |k| && !IsSpace(k[j]);
    assert r[j] == k[j];
    StripEmptyIff(r);
    assert Key(Some(r)) == r;
  }

  /** A cell is changed exactly when its key is already in `seen`. */
  lemma RenamedChangedIff(seen: map<string, nat>, c: Cell)
    ensures Renamed(seen, c) != c <==> Key(c) in seen
  {
    if Key(c) in seen {
      RewriteDiffers(c, seen[Key(c)] + 1);
    }
  }

  /** A position is changed exactly when cells before it share its key. */
  lemma ChangedIffRepeated(cols: seq<Cell>, i: nat)
    requires i < |cols|
    ensures Deduplicated(cols)[i] != cols[i] <==> Occurrences(cols[..i], Key(cols[i])) > 0
  {
    RenamedChangedIff(Seen(cols[..i]), cols[i]);
    SeenCounts(cols[..i], Key(cols[i]));
  }

  /** Only positions whose key already occurred earlier are changed, and every
      such position is changed. */
  lemma ChangedIff(cols: seq<Cell>, i: nat)
    requires i < |cols|
    ensures Deduplicated(cols)[i] != cols[i] <==> exists j :: 0 <= j < i && Key(cols[j]) == Key(cols[i])
  {
    ChangedIffRepeated(cols, i);
    OccurrencesPositiveIff(cols, i, Key(cols[i]));
  }

  /** A header whose keys are already pairwise distinct comes back unchanged
      (in particular, one with at most one blank cell and no cell "Unnamed"
      beside it). */
  lemma DistinctKeysUnchanged(cols: seq<Cell>)
    requires forall i, j | 0 <= i < j < |cols| :: Key(cols[i]) != Key(cols[j])
    ensures Deduplicated(cols) == cols
  {
    forall i | 0 <= i < |cols| ensures Deduplicated(cols)[i] == cols[i] {
      ChangedIff(cols, i);
    }
  }

  /** Handling one more cell updates `seen` for its key alone. */
  lemma SeenSnoc(cols: seq<Cell>, c: Cell)
    ensures var k := Key(c);
            Seen(cols + [c]) == if k in Seen(cols) then Seen(cols)[k := Seen(cols)[k] + 1] else Seen(cols)[k := 1]
  {
    assert (cols + [c])[..|cols|] == cols;
  }

  /** One pass of the loop at position i, given `seen` for the cells before
      it: the new `seen` and the cell the loop leaves there. */
  lemma LoopStep(cols: seq<Cell>, i: nat)
    requires i < |cols|
    ensures var seen, k := Seen(cols[..i]), Key(cols[i]);
            if k in seen then
              Seen(cols[..i + 1]) == seen[k := seen[k] + 1] &&
              Deduplicated(cols)[i] == Some(k + "_" + NatToString(seen[k] + 1))
            else
              Seen(cols[..i + 1]) == seen[k := 1] && Deduplicated(cols)[i] == cols[i]
  {
    assert cols[..i + 1] == cols[..i] + [cols[i]];
    SeenSnoc(cols[..i], cols[i]);
  }

  /** `["a", "a", "a"]` becomes `["a", "a_2", "a_3"]`: the first repeat gets the
      suffix 2, because the count starts at 1 and is incremented before use. */
  lemma RepeatsNumberedFromTwo()
    ensures Deduplicated([Some("a"), Some("a"), Some("a")]) == [Some("a"), Some("a_2"), Some("a_3")]
  {
    var a := Some("a");
    var cols := [a, a, a];
    KeyOfText("a");
    assert cols[..0] == [] && cols[..1] == [a] && cols[..2] == [a, a];
    SeenSnoc([], a);
    assert [] + [a] == [a];
    SeenSnoc([a], a);
    assert [a] + [a] == [a, a];
    assert Seen([a]) == map["a" := 1] && Seen([a, a]) == map["a" := 2];
    assert NatToString(2) == "2" && NatToString(3) == "3";
    assert "a" + "_" + "2" == "a_2" && "a" + "_" + "3" == "a_3";
    assert Deduplicated(cols)[0] == a;
    assert Deduplicated(cols)[1] == Some("a_2");
    assert Deduplicated(cols)[2] == Some("a_3");
  }

  /** `[None, "", " "]` becomes `[None, "Unnamed_2", "Unnamed_3"]`: the first
      blank cell is kept as it is, not replaced by "Unnamed". */
  lemma FirstBlankKept()
    ensures Deduplicated([None, Some(""), Some(" ")]) == [None, Some("Unnamed_2"), Some("Unnamed_3")]
  {
    var b, e, w: Cell := None, Some(""), Some(" ");
    var cols := [b, e, w];
    var p := Placeholder;
    assert Key(b) == p && Key(e) == p;
    assert Key(w) == p by {
      assert AllSpace(" ");
    }
    assert cols[..0] == [] && cols[..1] == [b] && cols[..2] == [b, e];
    SeenSnoc([], b);
    assert [] + [b] == [b];
    SeenSnoc([b], e);
    assert [b] + [e] == [b, e];
    assert Seen([b]) == map[p := 1] && Seen([b, e]) == map[p := 2];
    assert NatToString(2) == "2" && NatToString(3) == "3";
    assert p + "_" + "2" == "Unnamed_2" && p + "_" + "3" == "Unnamed_3";
    assert Deduplicated(cols)[0] == b;
    assert Deduplicated(cols)[1] == Some("Unnamed_2");
    assert Deduplicated(cols)[2] == Some("Unnamed_3");
  }

  /** `["a", "a", "a_2"]` becomes `["a", "a_2", "a_2"]`: names written by the
      loop are not entered into `seen`, so the result may repeat a name. */
  lemma ResultMayRepeat()
    ensures Deduplicated([Some("a"), Some("a"), Some("a_2")]) == [Some("a"), Some("a_2"), Some("a_2")]
  {
    var a, a2 := Some("a"), Some("a_2");
    var cols := [a, a, a2];
    KeyOfText("a");
    KeyOfText("a_2");
    assert cols[..0] == [] && cols[..1] == [a] && cols[..2] == [a, a];
    SeenSnoc([], a);
    assert [] + [a] == [a];
    SeenSnoc([a], a);
    assert [a] + [a] == [a, a];
    assert Seen([a]) == map["a" := 1] && Seen([a, a]) == map["a" := 2];
    assert "a_2" !in Seen([a, a]);
    assert NatToString(2) == "2";
    assert "a" + "_" + "2" == "a_2";
    assert Deduplicated(cols)[0] == a;
    assert Deduplicated(cols)[1] == a2;
    assert Deduplicated(cols)[2] == a2;
  }

  /** `deduplicate_columns`: overwrites `columns` in place and returns the
      same list. */
  method DeduplicateColumns(columns: array<Cell>) returns (result: array<Cell>)
    modifies columns
    ensures result == columns
    ensures columns[..] == Deduplicated(old(columns[..]))
  {
    ghost var original := columns[..];
    var seen: map<string, nat> := map[];
    for idx := 0 to columns.Length
      invariant forall k | 0 <= k < columns.Length :: columns[k] == if k < idx then Deduplicated(original)[k] else original[k]
      invariant seen == Seen(original[..idx])
    {
      var col := columns[idx];
      LoopStep(original, idx);
      KeyByStrip(col);
      var name: string;
      if col.None? || col.value == "" || Strip(col.value) == "" {
        name := Placeholder;
      } else {
        name := col.value;
      }
      if name in seen {
        seen := seen[name := seen[name] + 1];
        columns[idx] := Some(name + "_" + NatToString(seen[name]));
      } else {
        seen := seen[name := 1];
      }
    }
    assert columns[..] == Deduplicated(original);
    result := columns;
  }
}
