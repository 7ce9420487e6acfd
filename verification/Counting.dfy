/** How the sizes of finite sets move when one element is added; used by every row counter. */
module Counting {
  lemma AddNew<T>(some: set<T>, x: T)
    requires x !in some
    ensures |some + {x}| == |some| + 1
  {
  }

  /** Counting the elements of `some` that are not in `known`, one element later. */
  lemma AddOutside<T>(known: set<T>, some: set<T>, x: T)
    requires x !in some
    ensures |(some + {x}) - known| == |some - known| + if x in known then 0 else 1
  {
    if x in known {
      assert (some + {x}) - known == some - known;
    } else {
      assert (some + {x}) - known == (some - known) + {x};
    }
  }

  lemma AddKey<K, V>(m: map<K, V>, k: K, v: V)
    ensures m[k := v].Keys == m.Keys + {k}
  {
  }

  lemma SizeOfKeys<K, V>(m: map<K, V>)
    ensures |m| == |m.Keys|
  {
  }

  lemma Any<T>(s: set<T>) returns (x: T)
    requires s != {}
    ensures x in s
  {
    x :| x in s;
  }

  /** The size of a table that gains `more` and loses some of its old rows. */
  lemma GainAndLose<T>(kept: set<T>, more: set<T>, gone: set<T>)
    requires gone <= kept && gone !! more
    ensures |(kept + more) - gone| == |kept| + |more - kept| - |gone|
  {
    assert kept + more == kept + (more - kept);
    assert ((kept + more) - gone) + gone == kept + more;
  }

  lemma SizeOfThree<T>(all: set<T>, a: set<T>, b: set<T>, c: set<T>)
    requires forall x :: x in all <==> x in a || x in b || x in c
    requires forall x :: !(x in a && x in b) && !(x in a && x in c) && !(x in b && x in c)
    ensures |all| == |a| + |b| + |c|
  {
    assert all == a + b + c;
  }

  /** A worklist loop over `all`: taking `x` off the worklist puts it among the elements done. */
  lemma TakeOne<T>(all: set<T>, pending: set<T>, x: T)
    requires pending <= all && x in pending
    ensures all - (pending - {x}) == (all - pending) + {x}
    ensures x !in all - pending
  {
  }

  lemma NothingTaken<T>(all: set<T>)
    ensures all - all == {} && all - {} == all
  {
  }

  /** One more element of a larger set is looked at: it is one of `some`, or it is not. */
  lemma TakeMember<T>(some: set<T>, pending: set<T>, x: T)
    requires x in some && x in pending
    ensures x !in some - pending && some - (pending - {x}) == (some - pending) + {x}
    ensures |some - (pending - {x})| == |some - pending| + 1
  {
    assert some - (pending - {x}) == (some - pending) + {x};
  }

  lemma TakeOther<T>(some: set<T>, pending: set<T>, x: T)
    requires x !in some
    ensures some - (pending - {x}) == some - pending
  {
  }

  lemma AllOrNone<T>(some: set<T>, pending: set<T>)
    ensures some <= pending ==> some - pending == {}
    ensures pending == {} ==> some - pending == some
  {
  }
}
