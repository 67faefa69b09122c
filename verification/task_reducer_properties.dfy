/**
 What each transition of the reducer promises, stated over `Reduce` and
 proved from the definitions in `TaskReducer`.
 */
module TaskReducerProperties {
  import opened TaskReducer

  /** ADD_TASK appends the payload and leaves every earlier task where it was. */
  lemma AddAppends(state: seq<Task>, t: Task)
    ensures var r := Reduce(state, AddTask(t));
      && |r| == |state| + 1
      && r[..|state|] == state
      && r[|state|] == t
  {
  }

  /** TOGGLE_TASK negates `completed` exactly where the id matches and changes nothing else. */
  lemma ToggleFlipsMatches(state: seq<Task>, id: TaskId, k: int)
    requires 0 <= k < |state|
    ensures var r := Reduce(state, ToggleTask(id));
      && |r| == |state|
      && r[k].id == state[k].id
      && r[k].title == state[k].title
      && (r[k].completed != state[k].completed <==> state[k].id == id)
      && (state[k].id != id ==> r[k] == state[k])
  {
  }

  /** Toggling the same id twice gives back the original list, duplicates included. */
  lemma ToggleInvolution(state: seq<Task>, id: TaskId)
    ensures Reduce(Reduce(state, ToggleTask(id)), ToggleTask(id)) == state
  {
  }

  /** Toggling an id that no task carries leaves the list unchanged. */
  lemma ToggleAbsent(state: seq<Task>, id: TaskId)
    requires !Contains(state, id)
    ensures Reduce(state, ToggleTask(id)) == state
  {
    var r := Reduce(state, ToggleTask(id));
    forall k | 0 <= k < |state| ensures r[k] == state[k] {
      assert state[k].id != id;
    }
  }

  /** After DELETE_TASK no task carries the id, the survivors keep their order, and exactly the matches are gone. */
  lemma DeleteRemovesMatches(state: seq<Task>, id: TaskId)
    ensures var r := Reduce(state, DeleteTask(id));
      && !Contains(r, id)
      && IsSubsequence(r, state)
      && |r| == |state| - Count(state, id)
  {
  }

  /** A subsequence that avoids `id` can keep at most the tasks of `s` that do not carry `id`. */
  lemma {:induction false} SubsequenceBound(r: seq<Task>, s: seq<Task>, id: TaskId)
    ensures IsSubsequence(r, s) && !Contains(r, id) ==> |r| <= |s| - Count(s, id)
    decreases |s|
  {
    if IsSubsequence(r, s) && !Contains(r, id) && r != [] {
      assert s != [];
      if r[0] == s[0] && IsSubsequence(r[1..], s[1..]) {
        assert r[0].id != id;
        assert !Contains(r[1..], id) by {
          forall k | 0 <= k < |r[1..]| ensures r[1..][k].id != id {
            assert r[1..][k] == r[k + 1];
          }
        }
        SubsequenceBound(r[1..], s[1..], id);
      } else {
        SubsequenceBound(r, s[1..], id);
      }
    }
  }

  /**
   DELETE_TASK yields the one list that keeps, in order, every task whose id
   differs: any subsequence of the state that avoids the id and is as long as
   the number of non-matching tasks is that result.
   */
  lemma {:induction false} DeleteIsExactFilter(r: seq<Task>, s: seq<Task>, id: TaskId)
    requires IsSubsequence(r, s)
    requires !Contains(r, id)
    requires |r| == |s| - Count(s, id)
    ensures r == Reduce(s, DeleteTask(id))
    decreases |s|
  {
    if s == [] {
      assert r == [];
    } else if s[0].id == id {
      assert IsSubsequence(r, s[1..]) by {
        if r != [] {
          assert r[0].id != id;
          assert r[0] != s[0];
        }
      }
      DeleteIsExactFilter(r, s[1..], id);
    } else {
      SubsequenceBound(r, s[1..], id);
      assert r != [] && r[0] == s[0] && IsSubsequence(r[1..], s[1..]);
      assert !Contains(r[1..], id) by {
        forall k | 0 <= k < |r[1..]| ensures r[1..][k].id != id {
          assert r[1..][k] == r[k + 1];
        }
      }
      DeleteIsExactFilter(r[1..], s[1..], id);
      assert r == [r[0]] + r[1..];
    }
  }

  /** Deleting an id that no task carries leaves the list unchanged. */
  lemma {:induction false} DeleteAbsent(state: seq<Task>, id: TaskId)
    requires !Contains(state, id)
    ensures Reduce(state, DeleteTask(id)) == state
  {
    if state != [] {
      assert state[0].id != id;
      assert !Contains(state[1..], id) by {
        forall k | 0 <= k < |state[1..]| ensures state[1..][k].id != id {
          assert state[1..][k] == state[k + 1];
        }
      }
      DeleteAbsent(state[1..], id);
      assert state == [state[0]] + state[1..];
    }
  }

  /** Deleting the same id twice is the same as deleting it once. */
  lemma DeleteIdempotent(state: seq<Task>, id: TaskId)
    ensures var once := Reduce(state, DeleteTask(id));
      Reduce(once, DeleteTask(id)) == once
  {
    DeleteAbsent(Reduce(state, DeleteTask(id)), id);
  }

  /** SET_TASKS installs the payload whatever the current list is. */
  lemma SetReplaces(state: seq<Task>, tasks: seq<Task>)
    ensures Reduce(state, SetTasks(tasks)) == tasks
  {
  }

  /** An action of any other type leaves the list as it was. */
  lemma UnknownIsIdentity(state: seq<Task>, kind: OtherKind)
    ensures Reduce(state, Unknown(kind)) == state
  {
  }

  /** ADD_TASK keeps ids unique exactly when the list had unique ids and the new id was not yet present. */
  lemma AddUniqueIff(state: seq<Task>, t: Task)
    ensures UniqueIds(Reduce(state, AddTask(t))) <==> UniqueIds(state) && !Contains(state, t.id)
  {
    var r := Reduce(state, AddTask(t));
    assert forall k :: 0 <= k < |state| ==> r[k] == state[k];
    if UniqueIds(r) {
      forall k | 0 <= k < |state| ensures state[k].id != t.id {
        assert r[k].id != r[|state|].id;
      }
    }
  }

  /** TOGGLE_TASK keeps unique ids unique. */
  lemma ToggleKeepsUnique(state: seq<Task>, id: TaskId)
    requires UniqueIds(state)
    ensures UniqueIds(Reduce(state, ToggleTask(id)))
  {
  }

  /** Every task of a subsequence of `s` is a task of `s`. */
  lemma {:induction false} SubsequenceMembers(r: seq<Task>, s: seq<Task>, k: int)
    requires IsSubsequence(r, s)
    requires 0 <= k < |r|
    ensures exists j :: 0 <= j < |s| && s[j] == r[k]
    decreases |s|
  {
    if r[0] == s[0] && IsSubsequence(r[1..], s[1..]) {
      if k == 0 {
        assert s[0] == r[k];
      } else {
        SubsequenceMembers(r[1..], s[1..], k - 1);
        var j :| 0 <= j < |s[1..]| && s[1..][j] == r[1..][k - 1];
        assert s[j + 1] == r[k];
      }
    } else {
      SubsequenceMembers(r, s[1..], k);
      var j :| 0 <= j < |s[1..]| && s[1..][j] == r[k];
      assert s[j + 1] == r[k];
    }
  }

  /** A subsequence of a list with unique ids has unique ids. */
  lemma {:induction false} SubsequenceKeepsUnique(r: seq<Task>, s: seq<Task>)
    requires IsSubsequence(r, s)
    requires UniqueIds(s)
    ensures UniqueIds(r)
    decreases |s|
  {
    if r != [] {
      if r[0] == s[0] && IsSubsequence(r[1..], s[1..]) {
        SubsequenceKeepsUnique(r[1..], s[1..]);
        forall k | 1 <= k < |r| ensures r[0].id != r[k].id {
          SubsequenceMembers(r[1..], s[1..], k - 1);
          var j :| 0 <= j < |s[1..]| && s[1..][j] == r[1..][k - 1];
          assert s[j + 1] == r[k];
        }
        forall i, j | 0 <= i < j < |r| ensures r[i].id != r[j].id {
          if i > 0 {
            assert r[1..][i - 1] == r[i] && r[1..][j - 1] == r[j];
          }
        }
      } else {
        SubsequenceKeepsUnique(r, s[1..]);
      }
    }
  }

  /** DELETE_TASK keeps unique ids unique. */
  lemma DeleteKeepsUnique(state: seq<Task>, id: TaskId)
    requires UniqueIds(state)
    ensures UniqueIds(Reduce(state, DeleteTask(id)))
  {
    SubsequenceKeepsUnique(Reduce(state, DeleteTask(id)), state);
  }

  /** With duplicate ids, a single DELETE_TASK removes every task carrying that id, so the list shrinks by at least two. */
  lemma DeleteRemovesEveryMatch(state: seq<Task>, id: TaskId)
    requires Count(state, id) >= 2
    ensures var r := Reduce(state, DeleteTask(id));
      !Contains(r, id) && |r| <= |state| - 2
  {
  }

  /** DELETE_TASK keeps every task whose id differs. */
  lemma {:induction false} DeleteKeepsOthers(state: seq<Task>, id: TaskId, k: int)
    requires 0 <= k < |state|
    requires state[k].id != id
    ensures state[k] in Reduce(state, DeleteTask(id))
  {
    if k > 0 {
      assert state[1..][k - 1] == state[k];
      DeleteKeepsOthers(state[1..], id, k - 1);
    }
  }
}
