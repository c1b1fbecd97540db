// locales_test.go: parsePOFile reads a gettext catalog line by line into a
// msgid -> msgstr map; extractQuotedString strips one pair of quotes. The
// lines are given as a sequence (the file and its scanner are left out).
module PoFile {
  import opened Text

  /** The scanner's variables between two lines. */
  datatype PoState = PoState(entries: map<string, string>, msgid: string, msgstr: string, inMsgid: bool, inMsgstr: bool)

  const Start: PoState := PoState(map[], "", "", false, false)

  /** Whether a trimmed string is wrapped in a pair of double quotes. */
  predicate Quoted(t: string)
  {
    |t| >= 2 && t[0] == '"' && t[|t| - 1] == '"'
  }

  /** extractQuotedString: trim, then strip one surrounding quote pair if there is one. */
  function ExtractQuoted(s: string): (r: string)
    ensures |r| <= |s|
  {
    var t := TrimSpace(s);
    if Quoted(t) then t[1..|t| - 1] else t
  }

  /** Quoting a string and extracting it gives it back, whatever white space surrounds the quotes. */
  lemma ExtractQuotedRoundTrip(u: string, before: string, after: string)
    requires AllSpace(before) && AllSpace(after)
    ensures ExtractQuoted(before + "\"" + u + "\"" + after) == u
  {
    var q := "\"" + u + "\"";
    assert before + "\"" + u + "\"" + after == before + q + after;
    TrimAround(before, q, after);
    assert Quoted(q);
    assert q[1..|q| - 1] == u;
  }

  /** A string without surrounding quotes is only trimmed. */
  lemma ExtractQuotedUnquoted(s: string)
    requires !Quoted(TrimSpace(s))
    ensures ExtractQuoted(s) == TrimSpace(s)
  {
  }

  lemma {:induction false} TrimLeftSpaces(before: string, q: string)
    requires AllSpace(before) && q != [] && !IsSpace(q[0])
    ensures TrimLeft(before + q) == q
    decreases |before|
  {
    var s := before + q;
    if before == [] {
      assert s == q;
    } else {
      assert s[0] == before[0] && IsSpace(before[0]);
      assert s[1..] == before[1..] + q;
      assert TrimLeft(s) == TrimLeft(before[1..] + q);
      TrimLeftSpaces(before[1..], q);
    }
  }

  lemma {:induction false} TrimRightSpaces(q: string, after: string)
    requires AllSpace(after) && q != [] && !IsSpace(q[|q| - 1])
    ensures TrimRight(q + after) == q
    decreases |after|
  {
    var s := q + after;
    if after == [] {
      assert s == q;
    } else {
      var a := after[..|after| - 1];
      assert s[|s| - 1] == after[|after| - 1] && IsSpace(after[|after| - 1]);
      assert TrimRight(s) == TrimRight(s[..|s| - 1]);
      assert s[..|s| - 1] == q + a;
      assert AllSpace(a) by {
        forall i | 0 <= i < |a| ensures IsSpace(a[i]) {
          assert a[i] == after[i];
        }
      }
      TrimRightSpaces(q, a);
    }
  }

  lemma TrimAround(before: string, q: string, after: string)
    requires AllSpace(before) && AllSpace(after) && q != [] && !IsSpace(q[0]) && !IsSpace(q[|q| - 1])
    ensures TrimSpace(before + q + after) == q
  {
    assert before + q + after == before + (q + after);
    assert (q + after)[0] == q[0];
    TrimLeftSpaces(before, q + after);
    TrimRightSpaces(q, after);
  }

  /** The current entry is stored when its msgid is not empty; a repeated msgid overwrites. */
  function Flushed(st: PoState): (m: map<string, string>)
    ensures st.msgid != "" ==> m == st.entries[st.msgid := st.msgstr]
    ensures st.msgid == "" ==> m == st.entries
  {
    if st.msgid != "" then st.entries[st.msgid := st.msgstr] else st.entries
  }

  /** One iteration of the scanner loop. */
  function PoStep(st: PoState, line: string): PoState
  {
    var t := TrimSpace(line);
    if t == "" || HasPrefix(t, "#") then st
    else if HasPrefix(t, "msgid ") then PoState(Flushed(st), ExtractQuoted(t[6..]), "", true, false)
    else if HasPrefix(t, "msgstr ") then st.(msgstr := ExtractQuoted(t[7..]), inMsgid := false, inMsgstr := true)
    else if HasPrefix(t, "\"") then
      (if st.inMsgid then st.(msgid := st.msgid + ExtractQuoted(t))
       else if st.inMsgstr then st.(msgstr := st.msgstr + ExtractQuoted(t))
       else st)
    else st
  }

  /** The state after the given lines, one PoStep each, first line first. */
  function PoFold(st: PoState, lines: seq<string>): PoState
    decreases |lines|
  {
    if lines == [] then st else PoStep(PoFold(st, lines[..|lines| - 1]), lines[|lines| - 1])
  }

  /** parsePOFile's map: the fold, then the last entry stored. */
  function ParsedEntries(lines: seq<string>): map<string, string>
  {
    Flushed(PoFold(Start, lines))
  }

  /** parsePOFile: the scanner loop followed by the final store. */
  method ParsePOFile(lines: seq<string>) returns (entries: map<string, string>)
    ensures entries == ParsedEntries(lines)
  {
    entries := map[];
    var msgid, msgstr := "", "";
    var inMsgid, inMsgstr := false, false;
    for i := 0 to |lines|
      invariant PoState(entries, msgid, msgstr, inMsgid, inMsgstr) == PoFold(Start, lines[..i])
    {
      assert lines[..i + 1][..i] == lines[..i];
      var trimmed := TrimSpace(lines[i]);
      if trimmed == "" || HasPrefix(trimmed, "#") {
        continue;
      }
      if HasPrefix(trimmed, "msgid ") {
        if msgid != "" {
          entries := entries[msgid := msgstr];
        }
        msgid := ExtractQuoted(trimmed[6..]);
        msgstr := "";
        inMsgid, inMsgstr := true, false;
      } else if HasPrefix(trimmed, "msgstr ") {
        msgstr := ExtractQuoted(trimmed[7..]);
        inMsgid, inMsgstr := false, true;
      } else if HasPrefix(trimmed, "\"") {
        var continuation := ExtractQuoted(trimmed);
        if inMsgid {
          msgid := msgid + continuation;
        } else if inMsgstr {
          msgstr := msgstr + continuation;
        }
      }
    }
    assert lines[..|lines|] == lines;
    if msgid != "" {
      entries := entries[msgid := msgstr];
    }
  }

  lemma {:induction false} PoFoldConcat(st: PoState, a: seq<string>, b: seq<string>)
    ensures PoFold(st, a + b) == PoFold(PoFold(st, a), b)
    decreases |b|
  {
    if b == [] {
      assert a + b == a;
    } else {
      assert (a + b)[..|a + b| - 1] == a + b[..|b| - 1];
      PoFoldConcat(st, a, b[..|b| - 1]);
    }
  }

  /** A blank line or a comment line, wherever it stands, changes nothing. */
  lemma BlankAndCommentLinesIgnored(a: seq<string>, c: string, b: seq<string>)
    requires TrimSpace(c) == "" || HasPrefix(TrimSpace(c), "#")
    ensures ParsedEntries(a + [c] + b) == ParsedEntries(a + b)
  {
    PoFoldConcat(Start, a + [c], b);
    PoFoldConcat(Start, a, [c]);
    PoFoldConcat(Start, a, b);
    assert PoFold(PoFold(Start, a), [c]) == PoStep(PoFold(Start, a), c) by {
      assert [c][..0] == [];
    }
  }

  /** No entry is ever stored under the empty msgid (the catalog header). */
  lemma {:induction false} NoEmptyMsgid(lines: seq<string>)
    ensures "" !in PoFold(Start, lines).entries
    ensures "" !in ParsedEntries(lines)
    decreases |lines|
  {
    if lines != [] {
      NoEmptyMsgid(lines[..|lines| - 1]);
    }
  }

  /** A quoted line after msgid or msgstr continues that string. */
  lemma ContinuationAppends(st: PoState, u: string)
    ensures st.inMsgid ==> PoStep(st, "\"" + u + "\"") == st.(msgid := st.msgid + u)
    ensures !st.inMsgid && st.inMsgstr ==> PoStep(st, "\"" + u + "\"") == st.(msgstr := st.msgstr + u)
    ensures !st.inMsgid && !st.inMsgstr ==> PoStep(st, "\"" + u + "\"") == st
  {
    var line := "\"" + u + "\"";
    assert line[0] == '"' && line[|line| - 1] == '"';
    TrimSpaceOfTrimmed(line);
    assert !HasPrefix(line, "#") && !HasPrefix(line, "msgid ") && !HasPrefix(line, "msgstr ");
    assert HasPrefix(line, "\"");
    ExtractQuotedBare(u);
  }

  /** The two lines a catalog entry is written as. */
  function Block(k: string, v: string): seq<string>
  {
    ["msgid \"" + k + "\"", "msgstr \"" + v + "\""]
  }

  function Blocks(es: seq<(string, string)>): seq<string>
    decreases |es|
  {
    if es == [] then [] else Blocks(es[..|es| - 1]) + Block(es[|es| - 1].0, es[|es| - 1].1)
  }

  /** The entries as a map, a later pair winning over an earlier one with the same key. */
  function AsMap(es: seq<(string, string)>): map<string, string>
    decreases |es|
  {
    if es == [] then map[] else AsMap(es[..|es| - 1])[es[|es| - 1].0 := es[|es| - 1].1]
  }

  /** The quoted form of u extracts back to u. */
  lemma ExtractQuotedBare(u: string)
    ensures ExtractQuoted("\"" + u + "\"") == u
  {
    var q := "\"" + u + "\"";
    assert q[0] == '"' && q[|q| - 1] == '"';
    TrimSpaceOfTrimmed(q);
    assert Quoted(q);
    assert q[1..|q| - 1] == u;
    assert ExtractQuoted(q) == q[1..|q| - 1];
  }

  lemma MsgidLine(st: PoState, k: string)
    ensures PoStep(st, "msgid \"" + k + "\"") == PoState(Flushed(st), k, "", true, false)
  {
    var line := "msgid \"" + k + "\"";
    assert line[0] == 'm' && line[|line| - 1] == '"';
    TrimSpaceOfTrimmed(line);
    assert !HasPrefix(line, "#");
    assert line[..6] == "msgid ";
    assert line[6..] == "\"" + k + "\"";
    ExtractQuotedBare(k);
  }

  lemma MsgstrLine(st: PoState, v: string)
    ensures PoStep(st, "msgstr \"" + v + "\"") == st.(msgstr := v, inMsgid := false, inMsgstr := true)
  {
    var line := "msgstr \"" + v + "\"";
    assert line[0] == 'm' && line[|line| - 1] == '"';
    TrimSpaceOfTrimmed(line);
    assert !HasPrefix(line, "#");
    assert line[4] == 't';
    assert !HasPrefix(line, "msgid ");
    assert line[..7] == "msgstr ";
    assert line[7..] == "\"" + v + "\"";
    ExtractQuotedBare(v);
  }

  /** One entry's two lines store the previous entry and hold the new one. */
  lemma FoldBlock(st: PoState, k: string, v: string)
    ensures PoFold(st, Block(k, v)) == PoState(Flushed(st), k, v, false, true)
  {
    var b := Block(k, v);
    assert b[..1][..0] == [] && b[..1] == [b[0]];
    assert PoFold(st, b[..1]) == PoStep(st, b[0]);
    MsgidLine(st, k);
    MsgstrLine(PoState(Flushed(st), k, "", true, false), v);
  }

  /** After the lines of a non-empty list of entries the scanner holds the last one. */
  lemma {:induction false} BlocksFold(es: seq<(string, string)>)
    requires es != []
    requires forall i | 0 <= i < |es| :: es[i].0 != ""
    ensures PoFold(Start, Blocks(es)) == PoState(AsMap(es[..|es| - 1]), es[|es| - 1].0, es[|es| - 1].1, false, true)
    decreases |es|
  {
    var init, k, v := es[..|es| - 1], es[|es| - 1].0, es[|es| - 1].1;
    assert Blocks(es) == Blocks(init) + Block(k, v);
    PoFoldConcat(Start, Blocks(init), Block(k, v));
    var before := PoFold(Start, Blocks(init));
    FoldBlock(before, k, v);
    if init == [] {
      assert Blocks(init) == [];
      assert before == Start;
    } else {
      BlocksFold(init);
      assert init[..|init| - 1] == es[..|es| - 2];
      assert init[|init| - 1] == es[|es| - 2];
      assert Flushed(before) == AsMap(init);
    }
  }

  /**
   * Writing entries out as msgid/msgstr pairs and parsing them back gives
   * the entries as a map, a repeated msgid keeping its last value.
   */
  lemma ParseBlocks(es: seq<(string, string)>)
    requires forall i | 0 <= i < |es| :: es[i].0 != ""
    ensures ParsedEntries(Blocks(es)) == AsMap(es)
  {
    if es != [] {
      BlocksFold(es);
    }
  }
}
