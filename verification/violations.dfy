/** The violation-to-message mapping: the validator's list of failed rules becomes the
    field-to-message object sent back with a 422 response. */
module Violations {
  import opened Ascii

  /** One failed rule as the validator reports it: the struct field's name in its
      declared case, the rule's tag (`email`, `min`, ...) and the rule's parameter
      (`5` for `min=5`, empty for `email`). */
  datatype Violation = Violation(field: string, tag: string, param: string)

  const EmailTag: string := "email"
  const EmailMessage: string := "Invalid email format."

  /** The key a violation is filed under: its field name, lower-cased. */
  function Key(v: Violation): (k: string)
    ensures EqualIgnoringCase(k, v.field)
    ensures forall i :: 0 <= i < |k| ==> !IsUpper(k[i])
  {
    ToLower(v.field)
  }

  /** The text for one violation: a fixed sentence for `email`, otherwise
      "<Field> is <tag> <param>", the trailing space kept when the parameter is empty. */
  function Message(v: Violation): string {
    if v.tag == EmailTag then EmailMessage else v.field + " is " + v.tag + " " + v.param
  }

  /** The keys of all violations in vs. */
  ghost function FieldKeys(vs: seq<Violation>): set<string> {
    set i | 0 <= i < |vs| :: Key(vs[i])
  }

  /** No later violation in vs is filed under the same key as vs[i]. */
  ghost predicate IsLastFor(vs: seq<Violation>, i: int)
    requires 0 <= i < |vs|
  {
    forall j :: i < j < |vs| ==> Key(vs[j]) != Key(vs[i])
  }

  /** No two violations in vs are filed under the same key. */
  ghost predicate DistinctKeys(vs: seq<Violation>) {
    forall i, j :: 0 <= i < j < |vs| ==> Key(vs[i]) != Key(vs[j])
  }

  /** The error object for violations vs, written in order into an initially empty map,
      as the loop in buildError does. */
  function BuildErrors(vs: seq<Violation>): (errors: map<string, string>)
    ensures errors == map[] <==> vs == []
  {
    if vs == [] then map[]
    else
      var last := vs[|vs| - 1];
      var errors := BuildErrors(vs[..|vs| - 1])[Key(last) := Message(last)];
      assert Key(last) in errors;
      errors
  }

  /** Appending one violation overwrites its own key and leaves every other entry alone. */
  lemma AppendOne(vs: seq<Violation>, v: Violation)
    ensures BuildErrors(vs + [v]) == BuildErrors(vs)[Key(v) := Message(v)]
  {
  }

  /** The error object's keys are exactly the lower-cased field names of the violations:
      no extra key and none dropped. */
  lemma {:induction false} ErrorKeys(vs: seq<Violation>)
    ensures BuildErrors(vs).Keys == FieldKeys(vs)
  {
    if vs != [] {
      var init := vs[..|vs| - 1];
      var last := vs[|vs| - 1];
      assert vs == init + [last];
      ErrorKeys(init);
      AppendOne(init, last);
      assert forall i :: 0 <= i < |init| ==> init[i] == vs[i];
      assert FieldKeys(vs) == FieldKeys(init) + {Key(last)};
    }
  }

  /** Each key of the error object holds the message of the last violation filed under it. */
  lemma {:induction false} ErrorMessages(vs: seq<Violation>)
    ensures forall i :: 0 <= i < |vs| && IsLastFor(vs, i) ==>
              Key(vs[i]) in BuildErrors(vs) && BuildErrors(vs)[Key(vs[i])] == Message(vs[i])
  {
    if vs != [] {
      var init := vs[..|vs| - 1];
      var last := vs[|vs| - 1];
      assert vs == init + [last];
      ErrorMessages(init);
      AppendOne(init, last);
      forall i | 0 <= i < |vs| - 1 && IsLastFor(vs, i)
        ensures Key(vs[i]) in BuildErrors(vs) && BuildErrors(vs)[Key(vs[i])] == Message(vs[i])
      {
        assert vs[i] == init[i];
        assert Key(vs[i]) != Key(last);
        assert IsLastFor(init, i) by {
          forall j | i < j < |init|
            ensures Key(init[j]) != Key(init[i])
          {
            assert init[j] == vs[j];
          }
        }
      }
    }
  }

  /** Every violation has a last violation on its key at or after it. */
  lemma {:induction false} LastOnKeyExists(vs: seq<Violation>, i: int) returns (j: int)
    requires 0 <= i < |vs|
    ensures i <= j < |vs| && Key(vs[j]) == Key(vs[i]) && IsLastFor(vs, j)
    decreases |vs| - i
  {
    if IsLastFor(vs, i) {
      j := i;
    } else {
      var later :| i < later < |vs| && Key(vs[later]) == Key(vs[i]);
      j := LastOnKeyExists(vs, later);
    }
  }

  /** m holds, under each key, the message of the last violation filed under it. */
  ghost predicate HoldsLastMessages(vs: seq<Violation>, m: map<string, string>) {
    forall i :: 0 <= i < |vs| && IsLastFor(vs, i) ==> Key(vs[i]) in m && m[Key(vs[i])] == Message(vs[i])
  }

  /** A map with the messages of the last violations agrees with BuildErrors on any
      violation's key. */
  lemma AgreeOnKey(vs: seq<Violation>, m: map<string, string>, i: int)
    requires 0 <= i < |vs|
    requires HoldsLastMessages(vs, m)
    ensures Key(vs[i]) in m && Key(vs[i]) in BuildErrors(vs)
    ensures m[Key(vs[i])] == BuildErrors(vs)[Key(vs[i])]
  {
    var j := LastOnKeyExists(vs, i);
    ErrorMessages(vs);
    assert Key(vs[j]) in m && m[Key(vs[j])] == Message(vs[j]);
  }

  /** ErrorKeys and ErrorMessages pin the error object down completely: any map with the
      violations' keys and the last violation's message under each key is BuildErrors(vs). */
  lemma ErrorsDetermined(vs: seq<Violation>, m: map<string, string>)
    requires m.Keys == FieldKeys(vs)
    requires HoldsLastMessages(vs, m)
    ensures m == BuildErrors(vs)
  {
    var built := BuildErrors(vs);
    assert m.Keys == built.Keys by {
      ErrorKeys(vs);
    }
    assert forall k :: k in m ==> m[k] == built[k] by {
      forall k | k in m
        ensures m[k] == built[k]
      {
        var i :| 0 <= i < |vs| && Key(vs[i]) == k;
        AgreeOnKey(vs, m, i);
      }
    }
  }

  /** Last write wins: once v is followed only by violations on other keys, its message is
      the one that survives, whatever came before it under the same key. */
  lemma {:induction false} LastWriteWins(before: seq<Violation>, v: Violation, after: seq<Violation>)
    requires forall j :: 0 <= j < |after| ==> Key(after[j]) != Key(v)
    ensures Key(v) in BuildErrors(before + [v] + after)
    ensures BuildErrors(before + [v] + after)[Key(v)] == Message(v)
    decreases |after|
  {
    if after == [] {
      assert before + [v] + after == before + [v];
      AppendOne(before, v);
    } else {
      var init := after[..|after| - 1];
      var last := after[|after| - 1];
      assert after == init + [last];
      assert before + [v] + after == (before + [v] + init) + [last];
      LastWriteWins(before, v, init);
      AppendOne(before + [v] + init, last);
    }
  }

  /** An email violation that is the last on its key always reads "Invalid email format.",
      whatever the field's name or the rule's parameter. */
  lemma EmailViolationMessage(vs: seq<Violation>, i: int)
    requires 0 <= i < |vs| && vs[i].tag == EmailTag && IsLastFor(vs, i)
    ensures ToLower(vs[i].field) in BuildErrors(vs)
    ensures BuildErrors(vs)[ToLower(vs[i].field)] == "Invalid email format."
  {
    ErrorMessages(vs);
  }

  /** Any other violation that is the last on its key reads "<Field> is <tag> <param>",
      with the field in its original case. */
  lemma OtherViolationMessage(vs: seq<Violation>, i: int)
    requires 0 <= i < |vs| && vs[i].tag != EmailTag && IsLastFor(vs, i)
    ensures ToLower(vs[i].field) in BuildErrors(vs)
    ensures BuildErrors(vs)[ToLower(vs[i].field)] == vs[i].field + " is " + vs[i].tag + " " + vs[i].param
  {
    ErrorMessages(vs);
  }

  lemma SwapBase(before: seq<Violation>, x: Violation, y: Violation)
    requires Key(x) != Key(y)
    ensures BuildErrors(before + [x, y]) == BuildErrors(before + [y, x])
  {
    assert before + [x, y] == before + [x] + [y];
    assert before + [y, x] == before + [y] + [x];
    AppendOne(before, x);
    AppendOne(before + [x], y);
    AppendOne(before, y);
    AppendOne(before + [y], x);
  }

  /** Reordering two adjacent violations on different keys does not change the error object. */
  lemma {:induction false} SwapDistinctKeys(before: seq<Violation>, x: Violation, y: Violation, after: seq<Violation>)
    requires Key(x) != Key(y)
    ensures BuildErrors(before + [x, y] + after) == BuildErrors(before + [y, x] + after)
    decreases |after|
  {
    if after == [] {
      assert before + [x, y] + after == before + [x, y];
      assert before + [y, x] + after == before + [y, x];
      SwapBase(before, x, y);
    } else {
      var init := after[..|after| - 1];
      var last := after[|after| - 1];
      assert after == init + [last];
      assert before + [x, y] + after == (before + [x, y] + init) + [last];
      assert before + [y, x] + after == (before + [y, x] + init) + [last];
      SwapDistinctKeys(before, x, y, init);
      AppendOne(before + [x, y] + init, last);
      AppendOne(before + [y, x] + init, last);
    }
  }

  lemma Regroup(before: seq<Violation>, x: Violation, y: Violation, after: seq<Violation>)
    ensures before + [x, y] + after == (before + [x]) + [y] + after
  {
  }

  /** Reordering two adjacent violations on the same key with different messages changes the
      error object when nothing later overwrites that key: the order the validator reports
      violations in is observable. */
  lemma SwapSameKeyObservable(before: seq<Violation>, x: Violation, y: Violation, after: seq<Violation>)
    requires Key(x) == Key(y) && Message(x) != Message(y)
    requires forall j :: 0 <= j < |after| ==> Key(after[j]) != Key(x)
    ensures Key(x) in BuildErrors(before + [x, y] + after) && BuildErrors(before + [x, y] + after)[Key(x)] == Message(y)
    ensures Key(x) in BuildErrors(before + [y, x] + after) && BuildErrors(before + [y, x] + after)[Key(x)] == Message(x)
    ensures BuildErrors(before + [x, y] + after) != BuildErrors(before + [y, x] + after)
  {
    var xy := before + [x, y] + after;
    var yx := before + [y, x] + after;
    Regroup(before, x, y, after);
    Regroup(before, y, x, after);
    LastWriteWins(before + [x], y, after);
    LastWriteWins(before + [y], x, after);
    assert BuildErrors(xy)[Key(x)] != BuildErrors(yx)[Key(x)];
  }

  /** Extending vs keeps its keys distinct exactly when the new key is not already used. */
  lemma DistinctKeysAppend(vs: seq<Violation>, v: Violation)
    ensures DistinctKeys(vs + [v]) <==> DistinctKeys(vs) && Key(v) !in FieldKeys(vs)
  {
    var ext := vs + [v];
    assert forall i :: 0 <= i < |vs| ==> ext[i] == vs[i];
    if DistinctKeys(ext) {
      forall i | 0 <= i < |vs|
        ensures Key(vs[i]) != Key(v)
      {
        assert ext[i] == vs[i] && ext[|vs|] == v;
      }
    }
    if DistinctKeys(vs) && Key(v) !in FieldKeys(vs) {
      forall i, j | 0 <= i < j < |ext|
        ensures Key(ext[i]) != Key(ext[j])
      {
        if j == |vs| {
          assert Key(vs[i]) in FieldKeys(vs);
        }
      }
    }
  }

  /** Writing a key grows a map by one entry exactly when the key is new. */
  lemma UpdateSize(m: map<string, string>, k: string, msg: string)
    ensures |m[k := msg]| == if k in m then |m| else |m| + 1
  {
  }

  /** The error object never has more entries than there are violations, and has exactly as
      many when no two violations share a key: a collision is the only way a message is lost. */
  lemma {:induction false} ErrorCount(vs: seq<Violation>)
    ensures |BuildErrors(vs)| <= |vs|
    ensures |BuildErrors(vs)| == |vs| <==> DistinctKeys(vs)
  {
    if vs != [] {
      var init := vs[..|vs| - 1];
      var last := vs[|vs| - 1];
      assert vs == init + [last];
      ErrorCount(init);
      AppendOne(init, last);
      DistinctKeysAppend(init, last);
      ErrorKeys(init);
      UpdateSize(BuildErrors(init), Key(last), Message(last));
    }
  }
}
