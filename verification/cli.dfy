/** The argument handling of `GrayscaleBlend.main`: the help test and the
    flag/value scanner that fills the parameter map. */
module Cli {
  import opened Results
  import opened Text

  /** Usage is printed, and nothing else happens, exactly when the only
      argument is `--help` in any letter case: six characters, each equal
      to the one of `--help` once ASCII letters are folded. */
  predicate IsHelp(args: seq<string>): (b: bool)
    ensures b <==> |args| == 1 && |args[0]| == 6 && forall i :: 0 <= i < 6 ==> LowerChar(args[0][i]) == "--help"[i]
  {
    assert Lower("--help") == "--help";
    |args| == 1 && EqualsIgnoreCase(args[0], "--help")
  }

  predicate IsFlag(token: string)
  {
    StartsWith(token, "--")
  }

  /** The scanning loop from position `i` with the map built so far. At
      each flag position the checks run in the source's order: the raw token
      is already a key, the token is the last argument, the token lacks the
      two-dash prefix. Otherwise the lower-cased flag is bound to the next
      token, taken verbatim, and that token is skipped. */
  function ScanFrom(args: seq<string>, i: nat, params: map<string, string>): (r: Result<map<string, string>>)
    requires i <= |args|
    ensures r.Ok? ==> (|args| - i) % 2 == 0
    ensures r.Err? ==>
              && (r.error.DuplicatedParameter? || r.error.BlankParameter? || r.error.InvalidParameter?)
              && r.error.token in args[i..]
    decreases |args| - i
  {
    if i == |args| then Ok(params)
    else if args[i] in params then Err(DuplicatedParameter(args[i]))
    else if |args| - i == 1 then Err(BlankParameter(args[i]))
    else if IsFlag(args[i]) then ScanFrom(args, i + 2, params[Lower(args[i]) := args[i + 1]])
    else Err(InvalidParameter(args[i]))
  }

  /** The whole scan of `main`: a successful scan consumed the arguments in
      pairs, and a failure names one of the arguments. */
  function Scan(args: seq<string>): (r: Result<map<string, string>>)
    ensures r.Ok? ==> |args| % 2 == 0
    ensures r.Err? ==>
              && (r.error.DuplicatedParameter? || r.error.BlankParameter? || r.error.InvalidParameter?)
              && r.error.token in args
  {
    assert args[0..] == args;
    ScanFrom(args, 0, map[])
  }

  /** Position `i` holds a flag when scanning starts at `start`. */
  predicate FlagPosition(start: int, i: int)
  {
    start <= i && (i - start) % 2 == 0
  }

  lemma ShiftFlagPosition(start: int, i: int)
    ensures FlagPosition(start + 2, i) ==> FlagPosition(start, i)
    ensures FlagPosition(start, i) && start < i ==> FlagPosition(start + 2, i)
  {
  }

  /** The token at position `i` fails the duplicate test: it is an existing
      key or the lower-cased form of an earlier flag, which the scan has
      stored by the time it reaches `i`. */
  ghost predicate Repeated(args: seq<string>, start: nat, i: nat, keys: set<string>)
    requires i < |args|
  {
    args[i] in keys || exists j :: FlagPosition(start, j) && j < i && args[i] == Lower(args[j])
  }

  /** The flag at position `i` passes the duplicate and prefix tests. */
  ghost predicate FreshFlag(args: seq<string>, start: nat, i: nat, keys: set<string>)
    requires i < |args|
  {
    IsFlag(args[i]) && !Repeated(args, start, i, keys)
  }

  /** The flag at position `i` passes all three tests and is consumed with
      its value. */
  ghost predicate Passes(args: seq<string>, start: nat, i: nat, keys: set<string>)
  {
    i < |args| - 1 && FreshFlag(args, start, i, keys)
  }

  /** The failure reported at a flag position that does not pass, by the
      order of the tests: duplicate, then blank, then invalid. */
  ghost function FailureAt(args: seq<string>, start: nat, i: nat, keys: set<string>): Failure
    requires i < |args|
  {
    if Repeated(args, start, i, keys) then DuplicatedParameter(args[i])
    else if i == |args| - 1 then BlankParameter(args[i])
    else InvalidParameter(args[i])
  }

  /** Whether scanning from `start` with keys `keys` succeeds, stated
      without the loop: the remaining tokens pair up and every flag is
      fresh. */
  ghost predicate AcceptsFrom(args: seq<string>, start: nat, keys: set<string>)
    requires start <= |args|
  {
    && (|args| - start) % 2 == 0
    && forall i :: FlagPosition(start, i) && i < |args| ==> FreshFlag(args, start, i, keys)
  }

  /** Scanning succeeds exactly on accepted argument lists. */
  lemma {:induction false} ScanOkIff(args: seq<string>, start: nat, params: map<string, string>)
    requires start <= |args|
    ensures ScanFrom(args, start, params).Ok? <==> AcceptsFrom(args, start, params.Keys)
    decreases |args| - start
  {
    assert FlagPosition(start, start);
    if start < |args| && args[start] !in params && |args| - start != 1 && IsFlag(args[start]) {
      var params' := params[Lower(args[start]) := args[start + 1]];
      ScanOkIff(args, start + 2, params');
      if AcceptsFrom(args, start + 2, params'.Keys) {
        forall i | FlagPosition(start, i) && i < |args|
          ensures FreshFlag(args, start, i, params.Keys)
        {
          if i > start {
            assert FlagPosition(start + 2, i);
            assert FreshFlag(args, start + 2, i, params'.Keys);
            forall j | FlagPosition(start, j) && j < i
              ensures args[i] != Lower(args[j])
            {
              if j > start {
                assert FlagPosition(start + 2, j);
              }
            }
          }
        }
      }
      if AcceptsFrom(args, start, params.Keys) {
        var next := start + 2;
        forall i | FlagPosition(next, i) && i < |args|
          ensures FreshFlag(args, next, i, params'.Keys)
        {
          assert FlagPosition(start, i);
          assert FreshFlag(args, start, i, params.Keys);
        }
      }
    }
  }

  /** No flag after position `i` lower-cases to the same key. */
  ghost predicate LastOccurrence(args: seq<string>, start: nat, i: nat)
    requires i < |args|
  {
    forall j :: FlagPosition(start, j) && i < j < |args| ==> Lower(args[j]) != Lower(args[i])
  }

  /** No flag from `start` on lower-cases to `k`. */
  ghost predicate Untouched(args: seq<string>, start: nat, k: string)
  {
    forall i :: FlagPosition(start, i) && i < |args| ==> Lower(args[i]) != k
  }

  function FlagKeys(args: seq<string>, start: nat): set<string>
  {
    set i | start <= i < |args| && FlagPosition(start, i) :: Lower(args[i])
  }

  /** The flags from `start` on are the first flag and those after it. */
  lemma FlagKeysStep(args: seq<string>, start: nat)
    requires start < |args|
    ensures FlagKeys(args, start) == FlagKeys(args, start + 2) + {Lower(args[start])}
  {
    forall k | k in FlagKeys(args, start) ensures k in FlagKeys(args, start + 2) + {Lower(args[start])} {
      var i :| start <= i < |args| && FlagPosition(start, i) && k == Lower(args[i]);
      if i > start {
        assert FlagPosition(start + 2, i);
      }
    }
    forall k | k in FlagKeys(args, start + 2) ensures k in FlagKeys(args, start) {
      var i :| start + 2 <= i < |args| && FlagPosition(start + 2, i) && k == Lower(args[i]);
      assert FlagPosition(start, i);
    }
  }

  /** On success the keys are the existing keys plus the lower-cased flag
      tokens; each new key is bound to the value after its last flag
      occurrence, and keys no flag names keep their value. */
  lemma {:induction false} ScanResult(args: seq<string>, start: nat, params: map<string, string>)
    requires start <= |args|
    requires ScanFrom(args, start, params).Ok?
    ensures ScanFrom(args, start, params).value.Keys == params.Keys + FlagKeys(args, start)
    ensures forall i :: FlagPosition(start, i) && i < |args| - 1 && LastOccurrence(args, start, i) ==>
              ScanFrom(args, start, params).value[Lower(args[i])] == args[i + 1]
    ensures forall k :: k in params && Untouched(args, start, k) ==>
              ScanFrom(args, start, params).value[k] == params[k]
    decreases |args| - start
  {
    if start < |args| {
      var params' := params[Lower(args[start]) := args[start + 1]];
      ScanResult(args, start + 2, params');
      FlagKeysStep(args, start);
      var m := ScanFrom(args, start, params).value;
      assert m == ScanFrom(args, start + 2, params').value;
      forall i | FlagPosition(start, i) && i < |args| - 1 && LastOccurrence(args, start, i)
        ensures m[Lower(args[i])] == args[i + 1]
      {
        if i > start {
          LastOccurrenceShift(args, start, i);
        } else {
          UntouchedAfterLast(args, start);
        }
      }
      forall k | k in params && Untouched(args, start, k)
        ensures m[k] == params[k]
      {
        UntouchedShift(args, start, k);
      }
    }
  }

  lemma LastOccurrenceShift(args: seq<string>, start: nat, i: nat)
    requires start < i < |args| && FlagPosition(start, i) && LastOccurrence(args, start, i)
    ensures FlagPosition(start + 2, i) && LastOccurrence(args, start + 2, i)
  {
    forall j | FlagPosition(start + 2, j) && i < j < |args|
      ensures Lower(args[j]) != Lower(args[i])
    {
      assert FlagPosition(start, j);
    }
  }

  lemma UntouchedAfterLast(args: seq<string>, start: nat)
    requires start < |args| && LastOccurrence(args, start, start)
    ensures Untouched(args, start + 2, Lower(args[start]))
  {
    forall j | FlagPosition(start + 2, j) && j < |args|
      ensures Lower(args[j]) != Lower(args[start])
    {
      assert FlagPosition(start, j);
    }
  }

  lemma UntouchedShift(args: seq<string>, start: nat, k: string)
    requires start < |args| && Untouched(args, start, k)
    ensures Lower(args[start]) != k && Untouched(args, start + 2, k)
  {
    assert FlagPosition(start, start);
    forall i | FlagPosition(start + 2, i) && i < |args|
      ensures Lower(args[i]) != k
    {
      assert FlagPosition(start, i);
    }
  }

  /** Adding the first flag's key to the stored keys and starting one pair
      later leaves the duplicate test at a later flag position unchanged. */
  lemma RepeatedShift(args: seq<string>, start: nat, i: nat, keys: set<string>)
    requires start < i < |args| && FlagPosition(start, i)
    ensures Repeated(args, start + 2, i, keys + {Lower(args[start])}) <==> Repeated(args, start, i, keys)
  {
    if Repeated(args, start, i, keys) {
      RepeatedShiftOn(args, start, i, keys);
    }
    if Repeated(args, start + 2, i, keys + {Lower(args[start])}) {
      RepeatedShiftBack(args, start, i, keys);
    }
  }

  lemma RepeatedShiftOn(args: seq<string>, start: nat, i: nat, keys: set<string>)
    requires start < i < |args| && Repeated(args, start, i, keys)
    ensures Repeated(args, start + 2, i, keys + {Lower(args[start])})
  {
    if args[i] !in keys {
      var j :| FlagPosition(start, j) && j < i && args[i] == Lower(args[j]);
      if j > start {
        assert FlagPosition(start + 2, j);
      }
    }
  }

  lemma RepeatedShiftBack(args: seq<string>, start: nat, i: nat, keys: set<string>)
    requires start < i < |args| && Repeated(args, start + 2, i, keys + {Lower(args[start])})
    ensures Repeated(args, start, i, keys)
  {
    if args[i] == Lower(args[start]) {
      assert FlagPosition(start, start);
    } else if args[i] !in keys {
      var j :| FlagPosition(start + 2, j) && j < i && args[i] == Lower(args[j]);
      ShiftFlagPosition(start, j);
    }
  }

  /** Position `i` is the first flag position of a scan from `start` that
      does not pass: every earlier pair was consumed. */
  ghost predicate FirstFailing(args: seq<string>, start: nat, i: nat, keys: set<string>)
  {
    && FlagPosition(start, i) && i < |args|
    && (forall j :: FlagPosition(start, j) && j < i ==> Passes(args, start, j, keys))
    && !Passes(args, start, i, keys)
  }

  /** A failing scan reports the failure of the first flag position that
      does not pass, and the tests at that position, in the source's order,
      pick the error and its token. */
  lemma {:induction false} ScanFirstFailure(args: seq<string>, start: nat, params: map<string, string>)
    requires start <= |args|
    requires ScanFrom(args, start, params).Err?
    ensures exists i :: FirstFailing(args, start, i, params.Keys) &&
                        ScanFrom(args, start, params).error == FailureAt(args, start, i, params.Keys)
    decreases |args| - start
  {
    assert FlagPosition(start, start);
    assert args[start] !in params ==> !Repeated(args, start, start, params.Keys);
    if args[start] in params || |args| - start == 1 || !IsFlag(args[start]) {
      assert FirstFailing(args, start, start, params.Keys);
      assert ScanFrom(args, start, params).error == FailureAt(args, start, start, params.Keys);
    } else {
      var params' := params[Lower(args[start]) := args[start + 1]];
      assert params'.Keys == params.Keys + {Lower(args[start])};
      ScanFirstFailure(args, start + 2, params');
      var i: nat :| FirstFailing(args, start + 2, i, params'.Keys) &&
               ScanFrom(args, start + 2, params').error == FailureAt(args, start + 2, i, params'.Keys);
      ShiftFlagPosition(start, i);
      RepeatedShift(args, start, i, params.Keys);
      forall j | FlagPosition(start, j) && j < i
        ensures Passes(args, start, j, params.Keys)
      {
        if j > start {
          assert FlagPosition(start + 2, j);
          assert Passes(args, start + 2, j, params'.Keys);
          RepeatedShift(args, start, j, params.Keys);
        }
      }
      assert FirstFailing(args, start, i, params.Keys);
    }
  }

  /** Every failure names a token at a flag position: a duplicate is a
      token that repeats an existing key or an earlier flag, a blank is the
      last argument when the tokens do not pair up, and an invalid token is
      one without the two-dash prefix that has a value after it. */
  lemma ScanErrors(args: seq<string>, start: nat, params: map<string, string>)
    requires start <= |args|
    requires ScanFrom(args, start, params).Err?
    ensures ScanFrom(args, start, params).error.DuplicatedParameter? ==>
              exists i :: FlagPosition(start, i) && i < |args| && args[i] == ScanFrom(args, start, params).error.token
                          && Repeated(args, start, i, params.Keys)
    ensures ScanFrom(args, start, params).error.BlankParameter? ==>
              (|args| - start) % 2 == 1 && ScanFrom(args, start, params).error.token == args[|args| - 1]
    ensures ScanFrom(args, start, params).error.InvalidParameter? ==>
              var t := ScanFrom(args, start, params).error.token;
              !IsFlag(t) && exists i :: FlagPosition(start, i) && i < |args| - 1 && args[i] == t
    ensures ScanFrom(args, start, params).error.DuplicatedParameter? ||
            ScanFrom(args, start, params).error.BlankParameter? ||
            ScanFrom(args, start, params).error.InvalidParameter?
  {
    ScanFirstFailure(args, start, params);
    var i: nat :| FirstFailing(args, start, i, params.Keys) &&
             ScanFrom(args, start, params).error == FailureAt(args, start, i, params.Keys);
  }

  /** `--in1 a --IN1 b` does not fail: the duplicate test looks up the raw
      token `--IN1`, but the stored key is `--in1`, so the second value
      overwrites the first. */
  lemma MixedCaseFlagOverwrites()
    ensures Scan(["--in1", "a", "--IN1", "b"]) == Ok(map["--in1" := "b"])
  {
    var args := ["--in1", "a", "--IN1", "b"];
    assert IsFlag("--in1") && IsFlag("--IN1");
    assert Lower("--in1") == "--in1" && Lower("--IN1") == "--in1";
    assert "--IN1" != "--in1" by {
      assert "--IN1"[2] != "--in1"[2];
    }
    assert args[2] == "--IN1" && args[3] == "b";
    assert map["--in1" := "a"][Lower(args[2]) := args[3]] == map["--in1" := "b"];
    assert ScanFrom(args, 2, map["--in1" := "a"]) == ScanFrom(args, 4, map["--in1" := "b"]);
  }

  /** Repeating a lower-case flag verbatim fails on the repetition. */
  lemma ExactRepeatIsDuplicated()
    ensures Scan(["--in1", "a", "--in1", "b"]) == Err(DuplicatedParameter("--in1"))
  {
    assert IsFlag("--in1");
    assert Lower("--in1") == "--in1";
  }

  /** The duplicate test precedes the blank test, and the blank test
      precedes the prefix test; the first failing position decides. */
  lemma CheckOrderExamples()
    ensures Scan(["--out", "a", "--out"]) == Err(DuplicatedParameter("--out"))
    ensures Scan(["in1"]) == Err(BlankParameter("in1"))
    ensures Scan(["in1", "a"]) == Err(InvalidParameter("in1"))
    ensures Scan(["--a", "1", "b"]) == Err(BlankParameter("b"))
    ensures Scan(["a", "b", "--x"]) == Err(InvalidParameter("a"))
  {
    assert IsFlag("--out") && IsFlag("--a");
    assert Lower("--out") == "--out";
    assert !IsFlag("a");
    assert !IsFlag("in1") by {
      assert "in1"[..2][0] == 'i';
    }
  }
}
