/**
 * `findObject` of the dump script: a linear search of a fetched collection for
 * the first record whose `name` contains a keyword.
 */
module Lookup {
  import opened Wrappers
  import opened Catalogue

  /** The exceptions `findObject` raises. */
  datatype LookupError =
    /** An empty list never assigns `theMedia`, so returning it raises `UnboundLocalError`. */
    | UnboundResult
    /** `item['name']` on a record without a `name` field raises `KeyError`. */
    | MissingName

  /** `sub` occurs in `s` starting at position `i`. */
  predicate OccursAt(s: string, sub: string, i: int) {
    0 <= i <= |s| - |sub| && s[i..i + |sub|] == sub
  }

  /** Python's `sub in s` on strings: `sub` occurs somewhere in `s`. */
  predicate Contains(s: string, sub: string)
    ensures Contains(s, sub) <==> exists i :: OccursAt(s, sub, i)
    decreases |s|
  {
    if sub <= s then
      assert OccursAt(s, sub, 0);
      true
    else if |s| == 0 then false
    else
      assert !OccursAt(s, sub, 0);
      assert forall i :: OccursAt(s, sub, i) ==> OccursAt(s[1..], sub, i - 1) by {
        forall i | OccursAt(s, sub, i) ensures OccursAt(s[1..], sub, i - 1) {
          assert s[1..][i - 1..i - 1 + |sub|] == s[i..i + |sub|];
        }
      }
      assert forall j :: OccursAt(s[1..], sub, j) ==> OccursAt(s, sub, j + 1) by {
        forall j | OccursAt(s[1..], sub, j) ensures OccursAt(s, sub, j + 1) {
          assert s[1..][j..j + |sub|] == s[j + 1..j + 1 + |sub|];
        }
      }
      Contains(s[1..], sub)
  }

  /** The record is the one searched for: it has a name containing the keyword. */
  predicate Matches(item: Record, keywd: string) {
    "name" in item && Contains(item["name"], keywd)
  }

  /** The loop ends at this record: by a `KeyError` or by `break`. */
  predicate Stops(item: Record, keywd: string) {
    "name" !in item || Contains(item["name"], keywd)
  }

  /** The position of the first record the loop ends at, or `|items|` when it runs to the end. */
  function FirstStop(items: seq<Record>, keywd: string): (k: nat)
    ensures k <= |items|
    ensures forall j :: 0 <= j < k ==> !Stops(items[j], keywd)
    ensures k < |items| ==> Stops(items[k], keywd)
  {
    if items == [] then 0
    else if Stops(items[0], keywd) then 0
    else 1 + FirstStop(items[1..], keywd)
  }

  /** What `findObject` returns or raises. */
  function Find(items: seq<Record>, keywd: string): Result<Record, LookupError> {
    if items == [] then Failure(UnboundResult)
    else
      var k := FirstStop(items, keywd);
      if k == |items| then Success(map[])
      else if "name" !in items[k] then Failure(MissingName)
      else Success(items[k])
  }

  /**
   * `findObject`: each record that does not match resets the result to `{}`,
   * and the first that matches is kept and ends the loop.
   */
  method FindObject(items: seq<Record>, keywd: string) returns (r: Result<Record, LookupError>)
    ensures r == Find(items, keywd)
  {
    var theMedia: Option<Record> := None;
    var i := 0;
    while i < |items|
      invariant 0 <= i <= |items|
      invariant forall j :: 0 <= j < i ==> !Stops(items[j], keywd)
      invariant theMedia == if i == 0 then None else Some(map[])
    {
      var item := items[i];
      if "name" !in item {
        FirstStopIs(items, keywd, i);
        return Failure(MissingName);
      }
      if Contains(item["name"], keywd) {
        theMedia := Some(item);
        FirstStopIs(items, keywd, i);
        break;
      } else {
        theMedia := Some(map[]);
      }
      i := i + 1;
    }
    if i == |items| {
      FirstStopIs(items, keywd, i);
    }
    match theMedia
    case None => r := Failure(UnboundResult);
    case Some(found) => r := Success(found);
  }

  /** `FirstStop` is determined by its contract. */
  lemma FirstStopIs(items: seq<Record>, keywd: string, i: nat)
    requires i <= |items|
    requires forall j :: 0 <= j < i ==> !Stops(items[j], keywd)
    requires i < |items| ==> Stops(items[i], keywd)
    ensures FirstStop(items, keywd) == i
  {
  }

  /** An empty list is an error, and only an empty list gives that error. */
  lemma EmptyListFails(items: seq<Record>, keywd: string)
    ensures Find(items, keywd) == Failure(UnboundResult) <==> items == []
  {
  }

  /** The first record whose name contains the keyword is returned, when every record before it has a name. */
  lemma FindsFirstMatch(items: seq<Record>, keywd: string, i: nat)
    requires i < |items| && Matches(items[i], keywd)
    requires forall j :: 0 <= j < i ==> "name" in items[j] && !Matches(items[j], keywd)
    ensures Find(items, keywd) == Success(items[i])
  {
    FirstStopIs(items, keywd, i);
  }

  /** When no name contains the keyword, a non-empty list gives `{}`. */
  lemma NoMatchGivesEmptyRecord(items: seq<Record>, keywd: string)
    requires items != []
    requires forall j :: 0 <= j < |items| ==> "name" in items[j] && !Matches(items[j], keywd)
    ensures Find(items, keywd) == Success(map[])
  {
    FirstStopIs(items, keywd, |items|);
  }

  /** A record without a name, reached before any match, raises the `KeyError`. */
  lemma MissingNameFails(items: seq<Record>, keywd: string, i: nat)
    requires i < |items| && "name" !in items[i]
    requires forall j :: 0 <= j < i ==> "name" in items[j] && !Matches(items[j], keywd)
    ensures Find(items, keywd) == Failure(MissingName)
  {
    FirstStopIs(items, keywd, i);
  }

  /** A non-empty result is a record of the list whose name contains the keyword. */
  lemma ResultIsFromInput(items: seq<Record>, keywd: string)
    requires Find(items, keywd).Success? && Find(items, keywd).value != map[]
    ensures Find(items, keywd).value in items
    ensures Matches(Find(items, keywd).value, keywd)
  {
  }

  /** Records after the one the search ends at are never examined. */
  lemma {:induction false} LaterItemsIgnored(items: seq<Record>, rest: seq<Record>, keywd: string)
    requires items != [] && Find(items, keywd) != Success(map[])
    ensures Find(items + rest, keywd) == Find(items, keywd)
  {
    var k := FirstStop(items, keywd);
    assert k < |items|;
    assert forall j :: 0 <= j <= k ==> (items + rest)[j] == items[j];
    FirstStopIs(items + rest, keywd, k);
  }
}
