/** Counting who holds what. */
module Ownership {
  ghost function Holders(own: map<object, object?>, c: object?): set<object> {
    set p | p in own && own[p] == c
  }

  lemma HoldersWith(own: map<object, object?>, p: object, x: object?, c: object?)
    ensures Holders(own[p := x], c) == if x == c then Holders(own, c) + {p} else Holders(own, c) - {p}
    ensures p in Holders(own, c) <==> p in own && own[p] == c
  {
  }

  lemma HoldersAfter(own: map<object, object?>, p: object, x: object?, c: object?)
    ensures |Holders(own[p := x], c)| ==
      |Holders(own, c)| - (if p in own && own[p] == c then 1 else 0) + if x == c then 1 else 0
  {
    hide Holders;
    HoldersWith(own, p, x, c);
    var h := Holders(own, c);
    assert h + {p} == (h - {p}) + {p};
    assert |h - {p}| == |h| - if p in h then 1 else 0 by {
      if p in h { assert h == (h - {p}) + {p}; } else { assert h - {p} == h; }
    }
  }

  lemma HoldersWithout(own: map<object, object?>, p: object, c: object?)
    ensures |Holders(own - {p}, c)| == |Holders(own, c)| - if p in own && own[p] == c then 1 else 0
  {
    forall q ensures q in Holders(own - {p}, c) <==> q != p && q in Holders(own, c) {}
    assert Holders(own - {p}, c) == Holders(own, c) - {p};
  }

  lemma OnlyHolder(own: map<object, object?>, p: object, c: object?)
    requires p in own && own[p] == c
    ensures |Holders(own, c)| > 0 && (|Holders(own, c)| == 1 <==> Holders(own, c) == {p})
  {
    assert Holders(own, c) == (Holders(own, c) - {p}) + {p};
  }

  /** Handing on and swapping change no count. */
  lemma HoldersMoved(own: map<object, object?>, p: object, q: object, c: object)
    requires p !in own && q in own
    ensures |Holders(own[p := own[q]][q := null], c)| == |Holders(own, c)|
  {
    HoldersAfter(own, p, own[q], c);
    HoldersAfter(own[p := own[q]], q, null, c);
  }

  lemma HoldersSwapped(own: map<object, object?>, p: object, q: object, c: object)
    requires p in own && q in own
    ensures |Holders(own[p := own[q]][q := own[p]], c)| == |Holders(own, c)|
  {
    HoldersAfter(own, p, own[q], c);
    HoldersAfter(own[p := own[q]], q, own[p], c);
  }
}
