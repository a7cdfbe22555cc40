/**
 * The answer bookkeeping of the exam screen: the answer map
 * `selectedAnswers` (question id to chosen option id), the `answeredQuestions`
 * list of question ids, and the remote request each handler issues before it
 * changes them.
 */
module AnswerBook {
  import opened Wrappers

  /** The two pieces of answer state the screen keeps side by side. */
  datatype Answers = Answers(selected: map<int, int>, answered: seq<int>)

  /** The remote verbs used on `/API/student/tryout/{tryout}/{subject}/{question}/taking`. */
  datatype Verb = Post | Patch | Delete

  /** One remote call: its verb, the question it targets and the option id in
      its body (`None` for an explicit `null` or for no body at all). */
  datatype Request = Request(verb: Verb, question: int, option: Option<int>)

  predicate NoDuplicates(s: seq<int>) {
    forall i, j :: 0 <= i < j < |s| ==> s[i] != s[j]
  }

  /** The elements of `s` that are not in `removed`, in their order in `s`
      (the source's `filter(id => !removed.includes(id))`). */
  function Exclude(s: seq<int>, removed: seq<int>): (r: seq<int>)
    ensures forall x :: x in r <==> x in s && x !in removed
    ensures |r| <= |s|
    decreases |s|
  {
    if s == [] then []
    else
      assert s == [s[0]] + s[1..];
      (if s[0] in removed then [] else [s[0]]) + Exclude(s[1..], removed)
  }

  /** Filtering distributes over concatenation: the kept elements keep their
      relative order. */
  lemma {:induction false} ExcludeDistributes(a: seq<int>, b: seq<int>, removed: seq<int>)
    ensures Exclude(a + b, removed) == Exclude(a, removed) + Exclude(b, removed)
    decreases |a|
  {
    if a == [] {
      assert a + b == b;
    } else {
      assert (a + b)[0] == a[0];
      assert (a + b)[1..] == a[1..] + b;
      ExcludeDistributes(a[1..], b, removed);
    }
  }

  lemma {:induction false} ExcludeKeepsNoDuplicates(s: seq<int>, removed: seq<int>)
    requires NoDuplicates(s)
    ensures NoDuplicates(Exclude(s, removed))
    decreases |s|
  {
    if s != [] {
      var rest := Exclude(s[1..], removed);
      ExcludeKeepsNoDuplicates(s[1..], removed);
      assert s[0] !in s[1..] by {
        forall k | 0 <= k < |s[1..]| ensures s[1..][k] != s[0] {
          assert s[1..][k] == s[k + 1];
        }
      }
      assert s[0] !in rest;
      if s[0] !in removed {
        var r := [s[0]] + rest;
        assert Exclude(s, removed) == r;
        forall i, j | 0 <= i < j < |r| ensures r[i] != r[j] {
          if i == 0 {
            assert r[j] == rest[j - 1];
          } else {
            assert r[i] == rest[i - 1] && r[j] == rest[j - 1];
          }
        }
      }
    }
  }

  /** `q` appended to `s` unless it is already there. */
  function Include(s: seq<int>, q: int): (r: seq<int>)
    ensures forall x :: x in r <==> x in s || x == q
    ensures q in s ==> r == s
    ensures q !in s ==> |r| == |s| + 1 && r[..|s|] == s
    ensures NoDuplicates(s) ==> NoDuplicates(r)
  {
    if q in s then s else s + [q]
  }

  /** Clicking option `o` of question `q` when `o` is already its selected
      option: the click retracts the answer. */
  predicate Retracts(a: Answers, q: int, o: int) {
    q in a.selected && a.selected[q] == o
  }

  /** The request `handleAnswerSelect` issues: a PATCH with `null` to retract,
      a PATCH with the option when `q` is already answered, a POST otherwise. */
  function SelectRequest(a: Answers, q: int, o: int): (r: Request)
    ensures r.question == q && r.verb != Delete
    ensures r.option == None <==> Retracts(a, q, o)
    ensures r.option != None ==> r.option == Some(o)
    ensures r.verb == Post <==> !Retracts(a, q, o) && q !in a.answered
  {
    if Retracts(a, q, o) then Request(Patch, q, None)
    else if q in a.answered then Request(Patch, q, Some(o))
    else Request(Post, q, Some(o))
  }

  /** The answer state after a successful `handleAnswerSelect`. */
  function AfterSelect(a: Answers, q: int, o: int): (r: Answers)
    ensures Retracts(a, q, o) ==> q !in r.selected && q !in r.answered
    ensures !Retracts(a, q, o) ==> Retracts(r, q, o) && q in r.answered
    ensures !Retracts(a, q, o) && q in a.answered ==> r.answered == a.answered
    ensures forall p :: p != q ==> (p in r.selected <==> p in a.selected)
    ensures forall p :: p != q && p in r.selected ==> r.selected[p] == a.selected[p]
    ensures forall p :: p != q ==> (p in r.answered <==> p in a.answered)
  {
    if Retracts(a, q, o) then Answers(a.selected - {q}, Exclude(a.answered, [q]))
    else Answers(a.selected[q := o], Include(a.answered, q))
  }

  /** The request `submitEmptyAnswer` issues: DELETE when `q` is already
      answered, otherwise a POST with `null`. */
  function EmptyRequest(a: Answers, q: int): (r: Request)
    ensures r.question == q && r.option == None && r.verb != Patch
    ensures r.verb == Delete <==> q in a.answered
  {
    if q in a.answered then Request(Delete, q, None) else Request(Post, q, None)
  }

  /** The answer state after a successful `submitEmptyAnswer`: answered, with
      no option selected. */
  function AfterEmpty(a: Answers, q: int): (r: Answers)
    ensures q !in r.selected && q in r.answered
    ensures q in a.answered ==> r.answered == a.answered
    ensures forall p :: p != q ==> (p in r.selected <==> p in a.selected)
    ensures forall p :: p != q && p in r.selected ==> r.selected[p] == a.selected[p]
    ensures forall p :: p != q ==> (p in r.answered <==> p in a.answered)
  {
    Answers(a.selected - {q}, Include(a.answered, q))
  }

  /** The answer state after a successful `handleDeleteAnswer`, which always
      issues a DELETE. */
  function AfterDelete(a: Answers, q: int): (r: Answers)
    ensures q !in r.selected && q !in r.answered
    ensures forall p :: p != q ==> (p in r.selected <==> p in a.selected)
    ensures forall p :: p != q && p in r.selected ==> r.selected[p] == a.selected[p]
    ensures forall p :: p != q ==> (p in r.answered <==> p in a.answered)
  {
    Answers(a.selected - {q}, Exclude(a.answered, [q]))
  }

  /** The state invariant of the answer bookkeeping: only fetched questions
      are answered, a selected option implies the question is answered, and
      no question is listed twice. */
  ghost predicate Consistent(a: Answers, ids: seq<int>) {
    && (forall q :: q in a.answered ==> q in ids)
    && (forall q :: q in a.selected ==> q in a.answered)
    && NoDuplicates(a.answered)
  }

  lemma SelectKeepsConsistent(a: Answers, ids: seq<int>, q: int, o: int)
    requires Consistent(a, ids) && q in ids
    ensures Consistent(AfterSelect(a, q, o), ids)
  {
    ExcludeKeepsNoDuplicates(a.answered, [q]);
  }

  lemma EmptyKeepsConsistent(a: Answers, ids: seq<int>, q: int)
    requires Consistent(a, ids) && q in ids
    ensures Consistent(AfterEmpty(a, q), ids)
  {
  }

  lemma DeleteKeepsConsistent(a: Answers, ids: seq<int>, q: int)
    requires Consistent(a, ids)
    ensures Consistent(AfterDelete(a, q), ids)
  {
    ExcludeKeepsNoDuplicates(a.answered, [q]);
  }

  /** Selecting an option that is not yet selected and then selecting it again
      is a toggle: the second click issues a PATCH with `null` and leaves `q`
      neither selected nor answered, and the other questions as they were. */
  lemma SelectTwiceRetracts(a: Answers, q: int, o: int)
    requires !Retracts(a, q, o)
    ensures SelectRequest(AfterSelect(a, q, o), q, o) == Request(Patch, q, None)
    ensures var r := AfterSelect(AfterSelect(a, q, o), q, o);
            && q !in r.selected && q !in r.answered
            && (forall p :: p != q ==> (p in r.answered <==> p in a.answered))
            && (forall p :: p != q && p in a.selected ==> p in r.selected && r.selected[p] == a.selected[p])
  {
  }

  /** A retracting click has the same effect on the answer state as deleting
      the answer, though it reaches the server as a PATCH. */
  lemma RetractIsDelete(a: Answers, q: int, o: int)
    requires Retracts(a, q, o)
    ensures AfterSelect(a, q, o) == AfterDelete(a, q)
  {
  }

  /** Under the invariant an empty submission leaves `q` in the answered list
      exactly once. */
  lemma EmptyListsQuestionOnce(a: Answers, ids: seq<int>, q: int)
    requires Consistent(a, ids) && q in ids
    ensures var r := AfterEmpty(a, q).answered;
            exists i :: 0 <= i < |r| && r[i] == q && forall j :: 0 <= j < |r| && j != i ==> r[j] != q
  {
  }

  /** The ids occurring in `s`. */
  function Elements(s: seq<int>): set<int> {
    set x | x in s
  }

  lemma {:induction false} ElementsOfDistinct(s: seq<int>)
    requires NoDuplicates(s)
    ensures |Elements(s)| == |s|
    decreases |s|
  {
    if s != [] {
      var rest := s[1..];
      assert NoDuplicates(rest) by {
        forall i, j | 0 <= i < j < |rest| ensures rest[i] != rest[j] {
          assert rest[i] == s[i + 1] && rest[j] == s[j + 1];
        }
      }
      ElementsOfDistinct(rest);
      assert s[0] !in rest by {
        forall k | 0 <= k < |rest| ensures rest[k] != s[0] {
          assert rest[k] == s[k + 1];
        }
      }
      assert s == [s[0]] + rest;
      assert Elements(s) == {s[0]} + Elements(rest);
    }
  }

  /** A subset is as large as its superset minus what it leaves out. */
  lemma SubsetSize(a: set<int>, b: set<int>)
    requires a <= b
    ensures |b| == |a| + |b - a|
  {
    assert b == a + (b - a);
    assert a * (b - a) == {};
  }

  lemma SubsetOfSameSize(a: set<int>, b: set<int>)
    requires a <= b && |a| == |b|
    ensures a == b
  {
    SubsetSize(a, b);
    assert b - a == {};
  }

  /** The finishing test of `navigateQuestion` compares the length of the
      answered list with the number of questions. Under the invariant, and
      with distinct fetched ids, the lengths agree exactly when every fetched
      question is answered. */
  lemma FullLengthIffAllAnswered(a: Answers, ids: seq<int>)
    requires Consistent(a, ids) && NoDuplicates(ids)
    ensures |a.answered| == |ids| <==> forall q :: q in ids ==> q in a.answered
  {
    ElementsOfDistinct(a.answered);
    ElementsOfDistinct(ids);
    assert Elements(a.answered) <= Elements(ids);
    if |a.answered| == |ids| {
      SubsetOfSameSize(Elements(a.answered), Elements(ids));
      forall q | q in ids ensures q in a.answered {
        assert q in Elements(ids);
      }
    }
    if forall q :: q in ids ==> q in a.answered {
      assert Elements(a.answered) == Elements(ids);
    }
  }

  /** With a fetched id repeated, the length test can never pass: the
      invariant keeps the answered list duplicate-free, so it is shorter than
      the question list even when every question is answered. */
  lemma RepeatedIdsNeverFullLength(a: Answers, ids: seq<int>)
    requires Consistent(a, ids) && !NoDuplicates(ids)
    ensures |a.answered| < |ids|
  {
    var i, j :| 0 <= i < j < |ids| && ids[i] == ids[j];
    var dropped := ids[..j] + ids[j + 1..];
    assert forall q :: q in ids ==> q in dropped by {
      forall q | q in ids ensures q in dropped {
        var k :| 0 <= k < |ids| && ids[k] == q;
        if k < j {
          assert dropped[k] == q;
        } else if k == j {
          assert dropped[i] == q;
        } else {
          assert dropped[k - 1] == q;
        }
      }
    }
    ElementsOfDistinct(a.answered);
    assert Elements(a.answered) <= Elements(dropped);
    ElementsAtMostLength(dropped);
    SubsetSize(Elements(a.answered), Elements(dropped));
  }

  lemma {:induction false} ElementsAtMostLength(s: seq<int>)
    ensures |Elements(s)| <= |s|
    decreases |s|
  {
    if s != [] {
      ElementsAtMostLength(s[1..]);
      assert s == [s[0]] + s[1..];
      assert Elements(s) == {s[0]} + Elements(s[1..]);
    }
  }
}
