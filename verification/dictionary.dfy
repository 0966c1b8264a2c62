/** The per-line rule of `load_dictionary` (utils.py:43-68) over lines that
    have already been read: strip the line, split it on single spaces, and
    keep `word -> count` when the count field is an integer above 2. Values
    stay strings, and a later line for the same word overwrites the earlier
    one. */
module Dictionary {
  import opened Results
  import opened PyDict
  import opened Text
  import opened Numerals

  /** `line.strip().split(' ')`. */
  function Fields(line: string): seq<string> {
    Split(Strip(line), ' ')
  }

  /** `int(line_list[1])` succeeds whenever the line has a second field. */
  predicate WellFormed(line: string) {
    |Fields(line)| >= 2 ==> IsInteger(Fields(line)[1])
  }

  /** The assignment one line makes: none for a line without a second field
      (the caught `IndexError`) or with a count of at most 2. */
  function LineEntry(line: string): (e: Option<(string, string)>)
    requires WellFormed(line)
  {
    var f := Fields(line);
    if |f| < 2 then None
    else if ParseInt(f[1]) > 2 then Some((f[0], f[1]))
    else None
  }

  /** A line whose stripped text holds no space has no second field:
      `line_list[1]` raises the `IndexError` that utils.py:58-60 catches,
      and the line is skipped. */
  lemma LineWithoutSpace(line: string)
    requires ' ' !in Strip(line)
    ensures WellFormed(line) && LineEntry(line) == None
  {
    SplitJoin([Strip(line)], ' ');
  }

  /** The line rule stated on the stripped text: the line stores `k -> v`
      exactly when the text is `k`, a space and `v`, optionally followed by
      another space and anything, neither field holds a space, and `v` is
      an integer above 2. */
  lemma LineEntrySpec(line: string, k: string, v: string)
    requires WellFormed(line)
    ensures var t, p := Strip(line), k + " " + v;
      LineEntry(line) == Some((k, v)) <==>
        && ' ' !in k && ' ' !in v && IsInteger(v) && ParseInt(v) > 2
        && (t == p || (|p| < |t| && t[..|p| + 1] == p + " "))
  {
    if LineEntry(line) == Some((k, v)) {
      LineEntryShape(line);
    }
    var t, p := Strip(line), k + " " + v;
    if && ' ' !in k && ' ' !in v && IsInteger(v) && ParseInt(v) > 2
       && (t == p || (|p| < |t| && t[..|p| + 1] == p + " ")) {
      if t == p {
        FieldsOfPair(line, k, v);
      } else {
        FieldsOfLonger(line, k, v);
      }
    }
  }

  /** A stored pair is the first two space-free fields of the stripped text. */
  lemma LineEntryShape(line: string)
    requires WellFormed(line) && LineEntry(line).Some?
    ensures var (k, v) := LineEntry(line).value;
      var t, p := Strip(line), k + " " + v;
      && ' ' !in k && ' ' !in v && IsInteger(v) && ParseInt(v) > 2
      && (t == p || (|p| < |t| && t[..|p| + 1] == p + " "))
  {
    SplitFirstTwo(Strip(line), ' ');
  }

  /** The text `k v` has exactly the fields `k` and `v`. */
  lemma FieldsOfPair(line: string, k: string, v: string)
    requires ' ' !in k && ' ' !in v && Strip(line) == k + " " + v
    ensures Fields(line) == [k, v]
  {
    JoinCons(k, [v], " ");
    SplitJoin([k, v], ' ');
  }

  /** The text `k v rest` has the fields `k` and `v` first. */
  lemma FieldsOfLonger(line: string, k: string, v: string)
    requires ' ' !in k && ' ' !in v
    requires var t, p := Strip(line), k + " " + v;
      |p| < |t| && t[..|p| + 1] == p + " "
    ensures |Fields(line)| >= 2 && Fields(line)[0] == k && Fields(line)[1] == v
  {
    var t, p := Strip(line), k + " " + v;
    var rest := t[|p| + 1..];
    assert t == k + " " + v + " " + rest;
    SplitAfterTwo(k, v, rest, ' ');
  }

  /** What each line contributes, in line order. */
  function Parse(lines: seq<string>): (es: seq<Option<(string, string)>>)
    requires forall j :: 0 <= j < |lines| ==> WellFormed(lines[j])
    ensures |es| == |lines| && forall j :: 0 <= j < |lines| ==> es[j] == LineEntry(lines[j])
  {
    seq(|lines|, j requires 0 <= j < |lines| => LineEntry(lines[j]))
  }

  /** The assignments of the loop, in line order. */
  function Entries(es: seq<Option<(string, string)>>): seq<(string, string)> {
    if |es| == 0 then []
    else Entries(es[..|es| - 1]) + (if es[|es| - 1].Some? then [es[|es| - 1].value] else [])
  }

  /** `load_dictionary` over the lines of the file. */
  function LoadDictionary(lines: seq<string>): (d: Dict<string, string>)
    requires forall j :: 0 <= j < |lines| ==> WellFormed(lines[j])
    ensures DistinctKeys(d)
  {
    FromList(Entries(Parse(lines)))
  }

  /** Reading one more line either leaves the dict alone (no second field,
      or a count of at most 2) or assigns its count string to its word. */
  lemma LoadStep(lines: seq<string>, line: string)
    requires forall j :: 0 <= j < |lines| ==> WellFormed(lines[j])
    requires WellFormed(line)
    ensures forall j :: 0 <= j < |lines + [line]| ==> WellFormed((lines + [line])[j])
    ensures var f := Fields(line);
      LoadDictionary(lines + [line]) ==
        if |f| >= 2 && ParseInt(f[1]) > 2 then Put(LoadDictionary(lines), f[0], f[1])
        else LoadDictionary(lines)
  {
    var all := lines + [line];
    var es := Parse(all);
    assert es[..|es| - 1] == Parse(lines);
    var e := LineEntry(line);
    if e.Some? {
      var items := Entries(Parse(lines)) + [e.value];
      assert items[..|items| - 1] == Entries(Parse(lines));
    } else {
      assert Entries(es) == Entries(Parse(lines)) + [];
      assert Entries(Parse(lines)) + [] == Entries(Parse(lines));
    }
  }

  /** The value of a word, found independently of the dict: the count string
      of the last entry that stores that word. */
  function LastStored(es: seq<Option<(string, string)>>, k: string): Option<string> {
    if |es| == 0 then None
    else if es[|es| - 1].Some? && es[|es| - 1].value.0 == k then Some(es[|es| - 1].value.1)
    else LastStored(es[..|es| - 1], k)
  }

  lemma {:induction false} EntriesLast(es: seq<Option<(string, string)>>, k: string)
    ensures LastValue(Entries(es), k) == LastStored(es, k)
  {
    if |es| > 0 {
      var front := es[..|es| - 1];
      EntriesLast(front, k);
      var e := es[|es| - 1];
      if e.Some? {
        var items := Entries(front) + [e.value];
        assert items[..|items| - 1] == Entries(front);
      } else {
        assert Entries(front) + [] == Entries(front);
      }
    }
  }

  /** Later lines overwrite earlier ones: the dict maps each word to the
      count string of the last line that stores it. */
  lemma LoadLastWins(lines: seq<string>, k: string)
    requires forall j :: 0 <= j < |lines| ==> WellFormed(lines[j])
    ensures Get(LoadDictionary(lines), k) == LastStored(Parse(lines), k)
  {
    EntriesLast(Parse(lines), k);
  }

  /** `LastStored` finds an entry with that word and value, and no later
      entry stores the same word. */
  lemma {:induction false} LastStoredAt(es: seq<Option<(string, string)>>, k: string, v: string) returns (j: nat)
    requires LastStored(es, k) == Some(v)
    ensures j < |es| && es[j] == Some((k, v))
    ensures forall j' :: j < j' < |es| ==> es[j'].None? || es[j'].value.0 != k
  {
    var front := es[..|es| - 1];
    if es[|es| - 1].Some? && es[|es| - 1].value.0 == k {
      j := |es| - 1;
    } else {
      j := LastStoredAt(front, k, v);
      assert forall j' :: j < j' < |front| ==> es[j'] == front[j'];
    }
  }

  /** A word maps to a value exactly when some line stores that pair and no
      later line stores the same word; every stored value is an integer
      string above 2. */
  lemma LoadEntry(lines: seq<string>, k: string, v: string)
    requires forall j :: 0 <= j < |lines| ==> WellFormed(lines[j])
    requires Get(LoadDictionary(lines), k) == Some(v)
    ensures IsInteger(v) && ParseInt(v) > 2
    ensures exists j :: (0 <= j < |lines| && LineEntry(lines[j]) == Some((k, v))
      && forall j' :: j < j' < |lines| ==> LineEntry(lines[j']).None? || LineEntry(lines[j']).value.0 != k)
  {
    LoadLastWins(lines, k);
    var j := LastStoredAt(Parse(lines), k, v);
    assert LineEntry(lines[j]) == Some((k, v));
  }

  lemma {:induction false} LastStoredFrom(es: seq<Option<(string, string)>>, k: string, v: string, j: nat)
    requires j < |es| && es[j] == Some((k, v))
    requires forall j' :: j < j' < |es| ==> es[j'].None? || es[j'].value.0 != k
    ensures LastStored(es, k) == Some(v)
  {
    if j < |es| - 1 {
      var front := es[..|es| - 1];
      assert forall j' :: j < j' < |front| ==> front[j'] == es[j'];
      LastStoredFrom(front, k, v, j);
    }
  }

  /** A line that passes the filter decides its word's value unless a later
      line stores the same word. */
  lemma LoadKeeps(lines: seq<string>, j: nat)
    requires forall j :: 0 <= j < |lines| ==> WellFormed(lines[j])
    requires j < |lines| && LineEntry(lines[j]).Some?
    requires forall j' :: j < j' < |lines| ==>
      LineEntry(lines[j']).None? || LineEntry(lines[j']).value.0 != LineEntry(lines[j]).value.0
    ensures Get(LoadDictionary(lines), Fields(lines[j])[0]) == Some(Fields(lines[j])[1])
  {
    var e := LineEntry(lines[j]).value;
    LoadLastWins(lines, e.0);
    LastStoredFrom(Parse(lines), e.0, e.1, j);
  }

  /** A line with a count above 2 is stored, trailing newline and all. */
  lemma ExampleStored()
    ensures WellFormed("ab 3\n") && LineEntry("ab 3\n") == Some(("ab", "3"))
  {
    assert TrimStart("ab 3\n") == "ab 3\n";
    assert TrimEnd("ab 3\n") == "ab 3" by {
      assert "ab 3\n"[..4] == "ab 3";
    }
    assert Split("ab 3", ' ') == ["ab", "3"] by {
      assert IndexOf("ab 3", ' ') == 2;
      assert "ab 3"[..2] == "ab" && "ab 3"[3..] == "3";
      assert Split("3", ' ') == ["3"];
    }
    assert ParseInt("3") == 3 by {
      assert "3"[..0] == [];
    }
    assert Strip("ab 3\n") == "ab 3";
    assert Fields("ab 3\n") == ["ab", "3"];
    assert IsInteger("3") by {
      assert IsDigit("3"[0]);
    }
  }

  /** A line with a count of 2 and a line without a count are both skipped. */
  lemma ExampleSkipped()
    ensures WellFormed("ab 2") && LineEntry("ab 2") == None
    ensures WellFormed("ab") && LineEntry("ab") == None
  {
    assert TrimStart("ab 2") == "ab 2" && TrimEnd("ab 2") == "ab 2";
    assert Split("ab 2", ' ') == ["ab", "2"] by {
      assert IndexOf("ab 2", ' ') == 2;
      assert "ab 2"[..2] == "ab" && "ab 2"[3..] == "2";
      assert Split("2", ' ') == ["2"];
    }
    assert ParseInt("2") == 2 by {
      assert "2"[..0] == [];
    }
    assert Strip("ab 2") == "ab 2";
    assert Fields("ab 2") == ["ab", "2"];
    assert TrimStart("ab") == "ab" && TrimEnd("ab") == "ab";
    assert Split("ab", ' ') == ["ab"] by {
      assert IndexOf("ab", ' ') == 2;
    }
    assert Strip("ab") == "ab";
    assert Fields("ab") == ["ab"];
  }
}
