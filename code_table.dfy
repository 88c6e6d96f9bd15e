/** `getCodeTbl` of font.py: the code table is built by walking a range of JIS codes in
    order, skipping every code whose transcoding has a zero component and recording the
    others as seven-field entries whose width, height and bitmap offset are filled in later. */
module CodeTable {
  import opened Wrappers
  import opened Bits
  import opened Transcode

  /** One record of the code list: `[utf8, sjis, jis, char, width, height, offset]`. */
  datatype CodeEntry = CodeEntry(utf8: nat, sjis: nat, jis: nat, ch: string,
                                 width: nat, height: nat, offset: nat)

  /** The exceptions `getCodeTbl` does not catch. */
  datatype Error = OverflowError | UnicodeDecodeError

  /** What the loop body does with one code. */
  datatype Step = Skip | Keep(entry: CodeEntry) | Abort(error: Error)

  /** The loop body of `getCodeTbl` for one code: skip it when any component of its
      transcoding is zero; otherwise write the UTF-8 value back as three bytes, decode them
      and keep the record, width, height and offset 0. */
  function EntryFor(c: Codecs, code: int): (s: Step)
    ensures s.Skip? <==>
      var e := JisToEncodings(c, code); e.jis == 0 || e.sjis == 0 || e.utf8 == 0
    ensures s.Keep? ==>
      var e := JisToEncodings(c, code);
      s.entry.jis == code && s.entry.sjis == e.sjis && s.entry.utf8 == e.utf8
      && s.entry.utf8 != 0 && s.entry.sjis != 0 && s.entry.jis != 0
      && s.entry.width == 0 && s.entry.height == 0 && s.entry.offset == 0
      && e.utf8 < Pow(256, 3) && c.decodeUtf8(ToBytesBE(e.utf8, 3).value) == Some(s.entry.ch)
    ensures s.Abort? ==> (s.error == OverflowError <==> JisToEncodings(c, code).utf8 >= Pow(256, 3))
    ensures s.Keep? <==>
      var e := JisToEncodings(c, code);
      && e.jis != 0 && e.sjis != 0 && e.utf8 != 0 && e.utf8 < Pow(256, 3)
      && c.decodeUtf8(ToBytesBE(e.utf8, 3).value).Some?
    ensures s == Abort(UnicodeDecodeError) <==>
      var e := JisToEncodings(c, code);
      && e.jis != 0 && e.sjis != 0 && e.utf8 != 0 && e.utf8 < Pow(256, 3)
      && c.decodeUtf8(ToBytesBE(e.utf8, 3).value).None?
  {
    var e := JisToEncodings(c, code);
    if e.jis == 0 || e.sjis == 0 || e.utf8 == 0 then Skip
    else
      match ToBytesBE(e.utf8, 3)
      case None => Abort(OverflowError)
      case Some(utf8Bytes) =>
        match c.decodeUtf8(utf8Bytes)
        case None => Abort(UnicodeDecodeError)
        case Some(ch) => Keep(CodeEntry(e.utf8, e.sjis, e.jis, ch, 0, 0, 0))
  }

  /** The result of `getCodeTbl` on the codes `codes`: the kept records in order, or the
      first exception raised. */
  function CodeTbl(c: Codecs, codes: seq<int>): Result<seq<CodeEntry>, Error>
  {
    if codes == [] then Success([])
    else
      match CodeTbl(c, codes[..|codes| - 1])
      case Failure(err) => Failure(err)
      case Success(list) =>
        match EntryFor(c, codes[|codes| - 1])
        case Skip => Success(list)
        case Keep(entry) => Success(list + [entry])
        case Abort(err) => Failure(err)
  }

  /** `getCodeTbl`, appending to the list as it walks the range and leaving at the first
      exception. */
  method GetCodeTbl(c: Codecs, codeRange: seq<int>) returns (r: Result<seq<CodeEntry>, Error>)
    ensures r == CodeTbl(c, codeRange)
  {
    var codeList := [];
    for k := 0 to |codeRange|
      invariant CodeTbl(c, codeRange[..k]) == Success(codeList)
    {
      var code := codeRange[k];
      assert codeRange[..k + 1][..k] == codeRange[..k];
      var e := JisToEncodings(c, code);
      if e.jis == 0 || e.sjis == 0 || e.utf8 == 0 {
        continue;
      }
      var utf8Bytes := ToBytesBE(e.utf8, 3);
      if utf8Bytes.None? {
        FailureSticks(c, codeRange, k + 1);
        return Failure(OverflowError);
      }
      var unicodeChar := c.decodeUtf8(utf8Bytes.value);
      if unicodeChar.None? {
        FailureSticks(c, codeRange, k + 1);
        return Failure(UnicodeDecodeError);
      }
      codeList := codeList + [CodeEntry(e.utf8, e.sjis, e.jis, unicodeChar.value, 0, 0, 0)];
    }
    assert codeRange[..|codeRange|] == codeRange;
    return Success(codeList);
  }

  /** Once an exception is raised, the rest of the range is not looked at. */
  lemma {:induction false} FailureSticks(c: Codecs, codes: seq<int>, k: nat)
    requires k <= |codes| && CodeTbl(c, codes[..k]).Failure?
    ensures CodeTbl(c, codes) == CodeTbl(c, codes[..k])
  {
    if k < |codes| {
      assert codes[..|codes| - 1][..k] == codes[..k];
      FailureSticks(c, codes[..|codes| - 1], k);
    } else {
      assert codes[..k] == codes;
    }
  }

  /** A failed code table names the first code whose loop body raised, and what it raised. */
  lemma {:induction false} FailureWitness(c: Codecs, codes: seq<int>) returns (k: nat)
    requires CodeTbl(c, codes).Failure?
    ensures k < |codes| && EntryFor(c, codes[k]) == Abort(CodeTbl(c, codes).error)
    ensures forall j | 0 <= j < k :: !EntryFor(c, codes[j]).Abort?
  {
    var n := |codes| - 1;
    var init := codes[..n];
    if CodeTbl(c, init).Failure? {
      k := FailureWitness(c, init);
      assert init[k] == codes[k];
      forall j | 0 <= j < k ensures !EntryFor(c, codes[j]).Abort? {
        assert init[j] == codes[j];
      }
    } else {
      k := n;
      NoAbortInSuccess(c, init);
      forall j | 0 <= j < k ensures !EntryFor(c, codes[j]).Abort? {
        assert init[j] == codes[j];
      }
    }
  }

  /** No code of a successful code table made the loop body raise. */
  lemma {:induction false} NoAbortInSuccess(c: Codecs, codes: seq<int>)
    requires CodeTbl(c, codes).Success?
    ensures forall k | 0 <= k < |codes| :: !EntryFor(c, codes[k]).Abort?
  {
    if codes != [] {
      var n := |codes| - 1;
      var init := codes[..n];
      NoAbortInSuccess(c, init);
      forall k | 0 <= k < |codes| ensures !EntryFor(c, codes[k]).Abort? {
        if k < n {
          assert init[k] == codes[k];
        }
      }
    }
  }

  /** `getCodeTbl` raises exactly when some code of the range makes the loop body raise,
      and then it raises what the first such code raises. */
  lemma CodeTblFails(c: Codecs, codes: seq<int>)
    ensures CodeTbl(c, codes).Failure? <==> exists k | 0 <= k < |codes| :: EntryFor(c, codes[k]).Abort?
    ensures CodeTbl(c, codes).Failure? ==>
      exists k | 0 <= k < |codes| :: EntryFor(c, codes[k]) == Abort(CodeTbl(c, codes).error)
        && forall j | 0 <= j < k :: !EntryFor(c, codes[j]).Abort?
  {
    if CodeTbl(c, codes).Failure? {
      var k := FailureWitness(c, codes);
    } else {
      NoAbortInSuccess(c, codes);
    }
  }

  /** What the loop body does with each code of `codes`, in order. */
  function StepsOf(c: Codecs, codes: seq<int>): (r: seq<Step>)
    ensures |r| == |codes|
  {
    seq(|codes|, i requires 0 <= i < |codes| => EntryFor(c, codes[i]))
  }

  /** `idx` says where in a run of loop-body steps each kept record came from: the positions
      are strictly increasing, each record is what the step at its position keeps, and every
      keeping step has a record. */
  predicate KeptIn(steps: seq<Step>, list: seq<CodeEntry>, idx: seq<nat>)
  {
    && |idx| == |list|
    && (forall j | 0 <= j < |idx| :: idx[j] < |steps| && steps[idx[j]] == Keep(list[j]))
    && (forall i, j | 0 <= i < j < |idx| :: idx[i] < idx[j])
    && (forall k | 0 <= k < |steps| && steps[k].Keep? :: k in idx)
  }

  /** `idx` says where in the range each kept record came from (so the record's JIS field is
      the code at its position). */
  predicate KeptFrom(c: Codecs, codes: seq<int>, list: seq<CodeEntry>, idx: seq<nat>)
  {
    KeptIn(StepsOf(c, codes), list, idx)
  }

  /** A successful code table is the range filtered down to its kept codes and mapped to
      their records, in range order. */
  lemma {:induction false} CodeTblIsFilterMap(c: Codecs, codes: seq<int>) returns (idx: seq<nat>)
    requires CodeTbl(c, codes).Success?
    ensures KeptFrom(c, codes, CodeTbl(c, codes).value, idx)
  {
    if codes == [] {
      idx := [];
    } else {
      var n := |codes| - 1;
      var prev := CodeTblIsFilterMap(c, codes[..n]);
      var prevList := CodeTbl(c, codes[..n]).value;
      var steps := StepsOf(c, codes);
      assert steps[..n] == StepsOf(c, codes[..n]);
      match EntryFor(c, codes[n])
      case Keep(entry) =>
        assert CodeTbl(c, codes).value == prevList + [entry];
        KeepStep(steps, prevList, prev, entry);
        idx := prev + [n];
      case Skip =>
        assert CodeTbl(c, codes).value == prevList;
        SkipStep(steps, prevList, prev);
        idx := prev;
    }
  }

  lemma KeepStep(steps: seq<Step>, list: seq<CodeEntry>, idx: seq<nat>, entry: CodeEntry)
    requires steps != [] && KeptIn(steps[..|steps| - 1], list, idx)
    requires steps[|steps| - 1] == Keep(entry)
    ensures KeptIn(steps, list + [entry], idx + [|steps| - 1])
  {
    var n := |steps| - 1;
    var init := steps[..n];
    var list', idx' := list + [entry], idx + [n];
    forall j | 0 <= j < |idx'| ensures idx'[j] < |steps| && steps[idx'[j]] == Keep(list'[j]) {
      if j < |idx| {
        assert steps[idx[j]] == init[idx[j]];
      }
    }
    forall k | 0 <= k < |steps| && steps[k].Keep? ensures k in idx' {
      if k < n {
        assert steps[k] == init[k];
        assert k in idx;
      } else {
        assert idx'[|idx|] == n;
      }
    }
  }

  lemma SkipStep(steps: seq<Step>, list: seq<CodeEntry>, idx: seq<nat>)
    requires steps != [] && KeptIn(steps[..|steps| - 1], list, idx)
    requires steps[|steps| - 1].Skip?
    ensures KeptIn(steps, list, idx)
  {
    var n := |steps| - 1;
    var init := steps[..n];
    forall j | 0 <= j < |idx| ensures idx[j] < |steps| && steps[idx[j]] == Keep(list[j]) {
      assert steps[idx[j]] == init[idx[j]];
    }
    forall k | 0 <= k < |steps| && steps[k].Keep? ensures k in idx {
      assert steps[k] == init[k];
    }
  }

  /** Properties of every record of a successful code table: no more records than codes,
      nonzero UTF-8, Shift_JIS and JIS values, and width, height and offset 0. */
  lemma {:induction false} CodeTblEntries(c: Codecs, codes: seq<int>)
    requires CodeTbl(c, codes).Success?
    ensures |CodeTbl(c, codes).value| <= |codes|
    ensures forall j | 0 <= j < |CodeTbl(c, codes).value| ::
      var e := CodeTbl(c, codes).value[j];
      e.utf8 != 0 && e.sjis != 0 && e.jis != 0 && e.width == 0 && e.height == 0 && e.offset == 0
  {
    var list := CodeTbl(c, codes).value;
    var idx := CodeTblIsFilterMap(c, codes);
    IncreasingIsShort(idx, |codes|);
    forall j | 0 <= j < |list| ensures list[j].utf8 != 0 && list[j].sjis != 0 && list[j].jis != 0
      && list[j].width == 0 && list[j].height == 0 && list[j].offset == 0
    {
      assert StepsOf(c, codes)[idx[j]] == EntryFor(c, codes[idx[j]]) == Keep(list[j]);
    }
  }

  /** A strictly increasing sequence of indexes below `n` has at most `n` elements. */
  lemma {:induction false} IncreasingIsShort(idx: seq<nat>, n: nat)
    requires forall j | 0 <= j < |idx| :: idx[j] < n
    requires forall i, j | 0 <= i < j < |idx| :: idx[i] < idx[j]
    ensures |idx| <= n
  {
    if idx != [] {
      var m := |idx| - 1;
      IncreasingIsShort(idx[..m], idx[m]);
    }
  }

  /** Over an increasing range of codes, such as a Python `range`, the records come out with
      strictly increasing JIS values. */
  lemma CodeTblOrderedByJis(c: Codecs, codes: seq<int>)
    requires forall i, j | 0 <= i < j < |codes| :: codes[i] < codes[j]
    requires CodeTbl(c, codes).Success?
    ensures forall i, j | 0 <= i < j < |CodeTbl(c, codes).value| ::
      CodeTbl(c, codes).value[i].jis < CodeTbl(c, codes).value[j].jis
  {
    var list := CodeTbl(c, codes).value;
    var idx := CodeTblIsFilterMap(c, codes);
    forall i, j | 0 <= i < j < |list| ensures list[i].jis < list[j].jis {
      assert EntryFor(c, codes[idx[i]]) == Keep(list[i]);
      assert StepsOf(c, codes)[idx[j]] == EntryFor(c, codes[idx[j]]) == Keep(list[j]);
    }
  }
}
