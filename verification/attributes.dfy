/**
 * Splitting a comma-separated attribute list, as `splitAttributes` does by
 * reading the text with `getline(ss, attribute, ',')` until extraction fails.
 *
 * A `getline` call fails only when it extracts nothing at all, neither a
 * character nor the delimiter. So every comma ends a field (possibly an empty
 * one), the text after the last comma is a field only when it is non-empty,
 * and the empty text has no field at all.
 */
module Attributes {
  import opened Schema

  /** Where the field that starts at position `i` of `s` ends: the first comma at or after `i`, or the end. */
  function FieldEnd(s: string, i: nat): (n: nat)
    requires i <= |s|
    ensures i <= n <= |s|
    decreases |s| - i
  {
    if i == |s| || s[i] == ',' then i else FieldEnd(s, i + 1)
  }

  /** Length of the field at the front of `s`: the characters before the first comma. */
  function FieldLength(s: string): (n: nat)
    ensures n <= |s|
  {
    FieldEnd(s, 0)
  }

  /** The field scan stops at the first comma at or after `i`, or at the end when there is none. */
  lemma {:induction false} FieldEndStops(s: string, i: nat)
    requires i <= |s|
    ensures forall j :: i <= j < FieldEnd(s, i) ==> s[j] != ','
    ensures FieldEnd(s, i) < |s| ==> s[FieldEnd(s, i)] == ','
    decreases |s| - i
  {
    if i < |s| && s[i] != ',' {
      FieldEndStops(s, i + 1);
    }
  }

  /** A position `k` that ends a comma-free stretch starting at `i` is where the scan stops. */
  lemma {:induction false} FieldEndAt(s: string, i: nat, k: nat)
    requires i <= k <= |s|
    requires forall j :: i <= j < k ==> s[j] != ','
    requires k == |s| || s[k] == ','
    ensures FieldEnd(s, i) == k
    decreases k - i
  {
    if i < k {
      FieldEndAt(s, i + 1, k);
    }
  }

  /** The field stops at the first comma, or at the end of the text when there is none. */
  lemma FieldStopsAtComma(s: string)
    ensures ',' !in s[..FieldLength(s)]
    ensures FieldLength(s) < |s| ==> s[FieldLength(s)] == ','
  {
    FieldEndStops(s, 0);
    assert forall c :: c in s[..FieldLength(s)] ==> exists j :: 0 <= j < FieldLength(s) && s[j] == c;
  }

  /** The fields that successive `getline` calls extract from `s`, in order. */
  function Fields(s: string): (r: seq<string>)
    ensures s == [] <==> r == []
    decreases |s|
  {
    if s == [] then []
    else if FieldLength(s) == |s| then [s]
    else [s[..FieldLength(s)]] + Fields(s[FieldLength(s) + 1..])
  }

  /** The attribute set of a comma-separated list (`splitAttributes`). */
  function SplitAttributes(s: string): (r: AttrSet)
    ensures forall t :: t in r ==> ',' !in t
    ensures s == [] ==> r == {}
    ensures s != [] && ',' !in s ==> r == {s}
  {
    FieldsCommaFree(s);
    if s != [] && ',' !in s then
      FieldsOfCommaFree(s);
      set t | t in Fields(s)
    else
      set t | t in Fields(s)
  }

  /** No field holds a comma. */
  lemma {:induction false} FieldsCommaFree(s: string)
    ensures forall i :: 0 <= i < |Fields(s)| ==> ',' !in Fields(s)[i]
    decreases |s|
  {
    if s != [] {
      var n := FieldLength(s);
      FieldStopsAtComma(s);
      if n < |s| {
        FieldsCommaFree(s[n + 1..]);
      }
    }
  }

  /** A non-empty comma-free text is one field. */
  lemma FieldsOfCommaFree(s: string)
    requires s != [] && ',' !in s
    ensures Fields(s) == [s]
  {
    FieldLengthCommaFree(s);
  }

  /** In a comma-free text the front field runs to the end. */
  lemma FieldLengthCommaFree(s: string)
    requires ',' !in s
    ensures FieldLength(s) == |s|
  {
    assert forall j :: 0 <= j < |s| ==> s[j] in s;
    FieldEndAt(s, 0, |s|);
  }

  /** Writes each token followed by a comma: the way the program prints a key. */
  function Terminated(ts: seq<string>): string
  {
    if ts == [] then "" else ts[0] + "," + Terminated(ts[1..])
  }

  lemma FieldLengthOfTerminated(t: string, rest: string)
    requires ',' !in t
    ensures FieldLength(t + "," + rest) == |t|
  {
    var s := t + "," + rest;
    assert forall j :: 0 <= j < |t| ==> s[j] == t[j] && t[j] in t;
    FieldEndAt(s, 0, |t|);
  }

  /** Splitting comma-terminated tokens gives back exactly those tokens, empty ones included. */
  lemma {:induction false} FieldsOfTerminated(ts: seq<string>)
    requires forall i :: 0 <= i < |ts| ==> ',' !in ts[i]
    ensures Fields(Terminated(ts)) == ts
  {
    if ts != [] {
      var s := Terminated(ts);
      var t := ts[0];
      var rest := Terminated(ts[1..]);
      assert s == t + "," + rest;
      FieldLengthOfTerminated(t, rest);
      assert s[..|t|] == t;
      assert s[|t| + 1..] == rest;
      FieldsOfTerminated(ts[1..]);
      assert ts == [t] + ts[1..];
    }
  }

  /** `s` with a comma appended, unless it is empty or already ends with one. */
  function CommaEnded(s: string): string
  {
    if s == [] || s[|s| - 1] == ',' then s else s + ","
  }

  /**
   * Printing the fields of `s` comma-terminated rebuilds `s`, except that a
   * final comma is added when `s` does not already end with one: the fields
   * lose nothing but the empty text after a trailing comma.
   */
  lemma {:induction false} TerminatedOfFields(s: string)
    ensures Terminated(Fields(s)) == CommaEnded(s)
    decreases |s|
  {
    if s != [] {
      var n := FieldLength(s);
      if n < |s| {
        TerminatedOfFields(s[n + 1..]);
        TerminatedOfFirstField(s);
      } else {
        TerminatedOfLastField(s);
      }
    }
  }

  /** The step of `TerminatedOfFields`: the front field is printed, then the rest. */
  lemma TerminatedOfFirstField(s: string)
    requires s != [] && FieldLength(s) < |s|
    requires Terminated(Fields(s[FieldLength(s) + 1..])) == CommaEnded(s[FieldLength(s) + 1..])
    ensures Terminated(Fields(s)) == CommaEnded(s)
  {
    var n := FieldLength(s);
    var head, tail := s[..n], s[n + 1..];
    calc {
      Terminated(Fields(s));
      { FieldsStep(s); }
      Terminated([head] + Fields(tail));
      { TerminatedCons(head, Fields(tail)); }
      head + "," + Terminated(Fields(tail));
      head + "," + CommaEnded(tail);
      { CommaEndedAfterComma(head, tail); }
      CommaEnded(head + "," + tail);
      { FieldStopsAtComma(s); SplitAtComma(s, n); }
      CommaEnded(s);
    }
  }

  /** A text with no comma is a single field, printed with a comma added. */
  lemma TerminatedOfLastField(s: string)
    requires s != [] && FieldLength(s) == |s|
    ensures Terminated(Fields(s)) == CommaEnded(s)
  {
    FieldStopsAtComma(s);
    TerminatedCons(s, []);
    assert s[|s| - 1] in s;
  }

  lemma FieldsStep(s: string)
    requires s != [] && FieldLength(s) < |s|
    ensures Fields(s) == [s[..FieldLength(s)]] + Fields(s[FieldLength(s) + 1..])
  {
  }

  lemma CommaEndedAfterComma(head: string, tail: string)
    ensures head + "," + CommaEnded(tail) == CommaEnded(head + "," + tail)
  {
    var s := head + "," + tail;
    if tail != [] {
      assert s[|s| - 1] == tail[|tail| - 1];
      assert head + "," + (tail + ",") == s + ",";
    }
  }

  lemma TerminatedCons(t: string, ts: seq<string>)
    ensures Terminated([t] + ts) == t + "," + Terminated(ts)
  {
    assert ([t] + ts)[1..] == ts;
  }

  lemma SplitAtComma(s: string, n: nat)
    requires n < |s| && s[n] == ','
    ensures s == s[..n] + "," + s[n + 1..]
  {
  }

  /**
   * Only the empty text after a final comma is dropped: appending one comma
   * to a text that does not already end with one leaves its fields unchanged.
   */
  lemma TrailingCommaDropped(s: string)
    requires s != [] && s[|s| - 1] != ','
    ensures Fields(s + ",") == Fields(s)
  {
    var t := s + ",";
    TerminatedOfFields(s);
    TerminatedOfFields(t);
    assert t[|t| - 1] == ',';
    FieldsCommaFree(s);
    FieldsCommaFree(t);
    FieldsOfTerminated(Fields(s));
    FieldsOfTerminated(Fields(t));
  }

  /** The attribute set of a comma-terminated token list is the set of its tokens. */
  lemma SplitTerminated(ts: seq<string>)
    requires forall i :: 0 <= i < |ts| ==> ',' !in ts[i]
    ensures SplitAttributes(Terminated(ts)) == set t | t in ts
  {
    FieldsOfTerminated(ts);
  }
}
