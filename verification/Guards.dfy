/**
 Ordered checks: the reference the early-return cascades of the library are
 compared with.  A cascade reports the reason of the first check that fails.
 */
module Guards {
  import opened Options

  datatype Guard = Guard(passed: bool, reason: string)

  /** The pair (ok, reason) that the library's checks return. */
  datatype Verdict = Verdict(ok: bool, reason: string)

  predicate AllPass(guards: seq<Guard>) {
    forall i :: 0 <= i < |guards| ==> guards[i].passed
  }

  function FirstFailure(guards: seq<Guard>): Option<string> {
    if guards == [] then None
    else if !guards[0].passed then Some(guards[0].reason)
    else FirstFailure(guards[1..])
  }

  function VerdictOf(guards: seq<Guard>): Verdict {
    match FirstFailure(guards)
    case None => Verdict(true, "ok")
    case Some(reason) => Verdict(false, reason)
  }

  /** A verdict is positive exactly when every check passes; otherwise it names the first that fails. */
  lemma {:induction false} FirstFailureIsFirst(guards: seq<Guard>)
    ensures FirstFailure(guards) == None <==> AllPass(guards)
    ensures forall r :: FirstFailure(guards) == Some(r) <==>
              exists i :: 0 <= i < |guards| && AllPass(guards[..i]) && guards[i] == Guard(false, r)
  {
    if guards != [] {
      FirstFailureIsFirst(guards[1..]);
      if guards[0].passed {
        forall r
          ensures FirstFailure(guards) == Some(r) <==>
                    exists i :: 0 <= i < |guards| && AllPass(guards[..i]) && guards[i] == Guard(false, r)
        {
          var tail := guards[1..];
          if FirstFailure(guards) == Some(r) {
            var j :| 0 <= j < |tail| && AllPass(tail[..j]) && tail[j] == Guard(false, r);
            assert guards[..j + 1] == [guards[0]] + tail[..j];
            assert AllPass(guards[..j + 1]) && guards[j + 1] == Guard(false, r);
          }
          if i :| 0 <= i < |guards| && AllPass(guards[..i]) && guards[i] == Guard(false, r) {
            assert tail[..i - 1] == guards[..i][1..];
            assert AllPass(tail[..i - 1]) && tail[i - 1] == Guard(false, r);
          }
        }
      } else {
        assert guards[..0] == [] && AllPass(guards[..0]);
        forall i | 0 < i < |guards| ensures !AllPass(guards[..i]) {
          assert guards[..i][0] == guards[0];
        }
      }
    }
  }

  lemma {:induction false} FirstFailureAppend(a: seq<Guard>, b: seq<Guard>)
    ensures FirstFailure(a + b) == if FirstFailure(a) == None then FirstFailure(b) else FirstFailure(a)
  {
    if a == [] {
      assert a + b == b;
    } else {
      assert (a + b)[1..] == a[1..] + b;
      FirstFailureAppend(a[1..], b);
    }
  }

  lemma Unroll5(g: seq<Guard>)
    requires |g| == 5
    ensures FirstFailure(g) ==
      if !g[0].passed then Some(g[0].reason)
      else if !g[1].passed then Some(g[1].reason)
      else if !g[2].passed then Some(g[2].reason)
      else if !g[3].passed then Some(g[3].reason)
      else if !g[4].passed then Some(g[4].reason)
      else None
  {
    assert g[1..][1..] == g[2..] && g[2..][1..] == g[3..] && g[3..][1..] == g[4..] && g[4..][1..] == [];
    assert FirstFailure(g[4..]) == if !g[4].passed then Some(g[4].reason) else None;
    assert FirstFailure(g[3..]) == if !g[3].passed then Some(g[3].reason) else FirstFailure(g[4..]);
    assert FirstFailure(g[2..]) == if !g[2].passed then Some(g[2].reason) else FirstFailure(g[3..]);
  }

  lemma Unroll4(g: seq<Guard>)
    requires |g| == 4
    ensures FirstFailure(g) ==
      if !g[0].passed then Some(g[0].reason)
      else if !g[1].passed then Some(g[1].reason)
      else if !g[2].passed then Some(g[2].reason)
      else if !g[3].passed then Some(g[3].reason)
      else None
  {
    assert g[1..][1..] == g[2..] && g[2..][1..] == g[3..] && g[3..][1..] == [];
    assert FirstFailure(g[3..]) == if !g[3].passed then Some(g[3].reason) else None;
    assert FirstFailure(g[2..]) == if !g[2].passed then Some(g[2].reason) else FirstFailure(g[3..]);
  }
}
