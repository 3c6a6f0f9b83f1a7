/** The placeholder review screen of `frontend/src/screens/ReviewScreen.jsx`:
    three fixed duplicate groups, an index into them and the set of group ids
    marked reviewed. Skip and Delete both mark the current group reviewed
    and step forward; Delete deletes nothing. */
module ReviewScreen {

  datatype Group = Group(id: string, backupPath: string, keptPath: string)

  /** `placeholderGroups`. */
  const Groups: seq<Group> := [
    Group("1", "/volume1/PhotosBackup/2024/01/IMG_001.jpg", "/volume1/PhotosSorted/2024/01/IMG_001.jpg"),
    Group("2", "/volume1/PhotosBackup/2024/02/IMG_002.jpg", "/volume1/PhotosSorted/2024/02/IMG_002.jpg"),
    Group("3", "/volume1/PhotosBackup/2024/03/IMG_003.jpg", "/volume1/PhotosSorted/2024/03/IMG_003.jpg")
  ]

  /** The element the key went to. */
  datatype Target = TextInput | TextArea | Elsewhere

  datatype Key = Enter | Char(c: char) | OtherKey

  /** The index after Skip, Delete or Next: one further, but never past the
      last group. */
  function NextIndex(i: nat): (r: nat)
    requires i < |Groups|
    ensures r < |Groups|
    ensures i < |Groups| - 1 ==> r == i + 1
    ensures i == |Groups| - 1 ==> r == i
  {
    if i < |Groups| - 1 then i + 1 else i
  }

  /** The index after Previous: one back, but never before the first group. */
  function PreviousIndex(i: nat): (r: nat)
    requires i < |Groups|
    ensures r < |Groups|
    ensures i > 0 ==> r == i - 1
    ensures i == 0 ==> r == 0
  {
    if i > 0 then i - 1 else i
  }

  /** Previous undoes Next and Next undoes Previous, away from the ends. */
  lemma PreviousUndoesNext(i: nat)
    requires i < |Groups|
    ensures i < |Groups| - 1 ==> PreviousIndex(NextIndex(i)) == i
    ensures i > 0 ==> NextIndex(PreviousIndex(i)) == i
  {
  }

  /** The state after `k` presses of Enter from index `i` with `reviewed`. */
  function Skipped(i: nat, reviewed: set<string>, k: nat): (nat, set<string>)
    requires i < |Groups|
    decreases k
  {
    if k == 0 then (i, reviewed) else Skipped(NextIndex(i), reviewed + {Groups[i].id}, k - 1)
  }

  /** Pressing Enter `k` times walks forward to the last group, never
      forgets a reviewed id, and marks every group it passes, the one it
      started on included. */
  lemma {:induction false} SkippedMarksPassed(i: nat, reviewed: set<string>, k: nat)
    requires i < |Groups|
    ensures Skipped(i, reviewed, k).0 == if i + k < |Groups| then i + k else |Groups| - 1
    ensures reviewed <= Skipped(i, reviewed, k).1
    ensures forall j :: i <= j < i + k && j < |Groups| ==> Groups[j].id in Skipped(i, reviewed, k).1
    decreases k
  {
    if k > 0 {
      SkippedMarksPassed(NextIndex(i), reviewed + {Groups[i].id}, k - 1);
    }
  }

  /** From the start, as many presses of Enter as there are groups (or
      more) end on the last group with every group reviewed. */
  lemma {:induction false} SkipsReviewAll(k: nat)
    requires k >= |Groups|
    ensures Skipped(0, {}, k).0 == |Groups| - 1
    ensures forall g :: g in Groups ==> g.id in Skipped(0, {}, k).1
  {
    SkippedMarksPassed(0, {}, k);
    forall g | g in Groups
      ensures g.id in Skipped(0, {}, k).1
    {
      var j :| 0 <= j < |Groups| && Groups[j] == g;
    }
  }

  class Review {
    var currentIndex: nat
    var reviewed: set<string>
    /** The backup paths the placeholder Delete logs, oldest first. */
    var logged: seq<string>

    ghost predicate Valid()
      reads this
    {
      currentIndex < |Groups|
    }

    function CurrentGroup(): Group
      requires Valid()
      reads this
    {
      Groups[currentIndex]
    }

    constructor ()
      ensures Valid() && currentIndex == 0 && reviewed == {} && logged == []
    {
      currentIndex := 0;
      reviewed := {};
      logged := [];
    }

    /** `handleSkip`: marks the current group reviewed and moves on. */
    method Skip()
      requires Valid()
      modifies this
      ensures Valid()
      ensures reviewed == old(reviewed) + {old(CurrentGroup()).id}
      ensures currentIndex == NextIndex(old(currentIndex))
      ensures (currentIndex, reviewed) == Skipped(old(currentIndex), old(reviewed), 1)
      ensures logged == old(logged)
    {
      reviewed := reviewed + {Groups[currentIndex].id};
      if currentIndex < |Groups| - 1 {
        currentIndex := currentIndex + 1;
      }
    }

    /** `handleDelete`: the same state change as Skip; the file is only logged. */
    method Delete()
      requires Valid()
      modifies this
      ensures Valid()
      ensures reviewed == old(reviewed) + {old(CurrentGroup()).id}
      ensures currentIndex == NextIndex(old(currentIndex))
      ensures logged == old(logged) + [old(CurrentGroup()).backupPath]
    {
      logged := logged + [Groups[currentIndex].backupPath];
      reviewed := reviewed + {Groups[currentIndex].id};
      if currentIndex < |Groups| - 1 {
        currentIndex := currentIndex + 1;
      }
    }

    /** `handlePrevious`. */
    method Previous()
      requires Valid()
      modifies this
      ensures Valid()
      ensures currentIndex == PreviousIndex(old(currentIndex))
      ensures reviewed == old(reviewed) && logged == old(logged)
    {
      if currentIndex > 0 {
        currentIndex := currentIndex - 1;
      }
    }

    /** `handleNext`: moves on without marking anything reviewed. */
    method Next()
      requires Valid()
      modifies this
      ensures Valid()
      ensures currentIndex == NextIndex(old(currentIndex))
      ensures reviewed == old(reviewed) && logged == old(logged)
    {
      if currentIndex < |Groups| - 1 {
        currentIndex := currentIndex + 1;
      }
    }

    /** The `keydown` listener: keys typed into a text field are ignored,
        Enter skips, `d` or `D` deletes, anything else does nothing. */
    method KeyPress(target: Target, key: Key)
      requires Valid()
      modifies this
      ensures Valid()
      ensures target != Elsewhere ==> unchanged(this)
      ensures target == Elsewhere && key == Enter ==>
                reviewed == old(reviewed) + {old(CurrentGroup()).id} &&
                currentIndex == NextIndex(old(currentIndex)) && logged == old(logged)
      ensures target == Elsewhere && key in {Char('d'), Char('D')} ==>
                reviewed == old(reviewed) + {old(CurrentGroup()).id} &&
                currentIndex == NextIndex(old(currentIndex)) &&
                logged == old(logged) + [old(CurrentGroup()).backupPath]
      ensures target == Elsewhere && key != Enter && key !in {Char('d'), Char('D')} ==> unchanged(this)
      ensures old(reviewed) <= reviewed
    {
      if target != Elsewhere {
        return;
      }
      if key == Enter {
        Skip();
      } else if key == Char('d') || key == Char('D') {
        Delete();
      }
    }
  }
}
