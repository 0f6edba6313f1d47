/** The ParticipantsClasses list of a dialogue and its reconciliation against the
    aggregated participant names: outdated entries are removed by a backward
    pass with swap-removal, missing names are added unbound, and unbound entries
    may be bound automatically to the single class found for their name. */
module DlgParticipantClasses {
  import opened DlgTypes

  /** A class, by its path name. */
  type ClassName = string

  /** FDlgParticipantClass: a participant name and the class bound to it, if any. */
  datatype ParticipantClass = ParticipantClass(participantName: Name, participantClass: Option<ClassName>)

  function NamesOf(s: seq<ParticipantClass>): set<Name>
    decreases |s|
  {
    if s == [] then {} else {s[0].participantName} + NamesOf(s[1..])
  }

  /** Each name occurs in at most one entry. */
  predicate UniqueNames(s: seq<ParticipantClass>)
    decreases |s|
  {
    s == [] || (s[0].participantName !in NamesOf(s[1..]) && UniqueNames(s[1..]))
  }

  lemma {:induction false} NamesOfMembership(s: seq<ParticipantClass>)
    ensures forall n :: n in NamesOf(s) <==> exists i :: 0 <= i < |s| && s[i].participantName == n
    decreases |s|
  {
    if s != [] {
      NamesOfMembership(s[1..]);
      forall n | n in NamesOf(s) ensures exists i :: 0 <= i < |s| && s[i].participantName == n {
        if n != s[0].participantName {
          assert n in NamesOf(s[1..]);
          var i :| 0 <= i < |s[1..]| && s[1..][i].participantName == n;
          assert s[i + 1] == s[1..][i];
        }
      }
      forall n | exists i :: 0 <= i < |s| && s[i].participantName == n ensures n in NamesOf(s) {
        var i :| 0 <= i < |s| && s[i].participantName == n;
        if i > 0 { assert s[1..][i - 1] == s[i]; }
      }
    }
  }

  lemma {:induction false} NamesOfAppend(a: seq<ParticipantClass>, b: seq<ParticipantClass>)
    ensures NamesOf(a + b) == NamesOf(a) + NamesOf(b)
    ensures UniqueNames(a + b) <==> UniqueNames(a) && UniqueNames(b) && NamesOf(a) !! NamesOf(b)
    decreases |a|
  {
    if a == [] {
      assert a + b == b;
    } else {
      assert (a + b)[1..] == a[1..] + b;
      NamesOfAppend(a[1..], b);
    }
  }

  /** No entry after position `i` has the name of entry `i`. */
  predicate IsLastWithName(s: seq<ParticipantClass>, i: int)
    requires 0 <= i < |s|
  {
    s[i].participantName !in NamesOf(s[i + 1..])
  }

  /** The entries the backward pass keeps, in their old order: those whose name is
      an aggregated name, is not None, and does not occur again later. */
  function Survivors(s: seq<ParticipantClass>, names: set<Name>): seq<ParticipantClass>
    decreases |s|
  {
    if s == [] then []
    else
      var x := s[0];
      (if x.participantName in names && x.participantName != NameNone && x.participantName !in NamesOf(s[1..]) then [x] else []) +
      Survivors(s[1..], names)
  }

  /** The entries added for the names no entry had. */
  function NewEntries(s: seq<ParticipantClass>, names: set<Name>): set<ParticipantClass> {
    Unbound(names - NamesOf(s))
  }

  /** The reconciled list, up to order. */
  function Reconciled(s: seq<ParticipantClass>, names: set<Name>): multiset<ParticipantClass> {
    multiset(Survivors(s, names)) + multiset(NewEntries(s, names))
  }

  /** The survivors are exactly the entries that are the last with their name and
      carry an aggregated name other than None. */
  lemma {:induction false} SurvivorsMembership(s: seq<ParticipantClass>, names: set<Name>)
    ensures forall x :: x in Survivors(s, names) <==>
      x.participantName in names && x.participantName != NameNone &&
      exists i :: 0 <= i < |s| && s[i] == x && IsLastWithName(s, i)
    decreases |s|
  {
    if s != [] {
      var rest := s[1..];
      SurvivorsMembership(rest, names);
      forall y ensures y in Survivors(s, names) <==>
        y.participantName in names && y.participantName != NameNone &&
        exists i :: 0 <= i < |s| && s[i] == y && IsLastWithName(s, i)
      {
        if y in Survivors(rest, names) {
          var i :| 0 <= i < |rest| && rest[i] == y && IsLastWithName(rest, i);
          assert s[i + 2..] == rest[i + 1..];
          assert s[i + 1] == y && IsLastWithName(s, i + 1);
        }
        if y.participantName in names && y.participantName != NameNone &&
           exists i :: 0 <= i < |s| && s[i] == y && IsLastWithName(s, i) {
          var i :| 0 <= i < |s| && s[i] == y && IsLastWithName(s, i);
          if i > 0 {
            assert s[i + 1..] == rest[i..];
            assert rest[i - 1] == y && IsLastWithName(rest, i - 1);
          }
        }
      }
    }
  }

  /** The survivors carry each name once, and their names are the old names that
      are still aggregated, None excepted. */
  lemma {:induction false} SurvivorsNames(s: seq<ParticipantClass>, names: set<Name>)
    ensures NamesOf(Survivors(s, names)) == NamesOf(s) * names - {NameNone}
    ensures UniqueNames(Survivors(s, names))
    decreases |s|
  {
    if s != [] {
      var x := s[0];
      var rest := s[1..];
      SurvivorsNames(rest, names);
      var keep := x.participantName in names && x.participantName != NameNone && x.participantName !in NamesOf(rest);
      var head := if keep then [x] else [];
      NamesOfAppend(head, Survivors(rest, names));
      if keep {
        assert NamesOf(head) == {x.participantName} by { assert head[1..] == []; }
        assert UniqueNames(head) by { assert head[1..] == []; }
      }
    }
  }

  /** A reconciled entry carries an aggregated name other than None, and is
      either the last old entry with its name (class included) or an unbound
      entry for a name no old entry had. */
  lemma ReconciledEntries(s: seq<ParticipantClass>, names: set<Name>)
    ensures forall x :: x in Reconciled(s, names) ==>
      x.participantName in names && x.participantName != NameNone &&
      ((exists i :: 0 <= i < |s| && s[i] == x && IsLastWithName(s, i)) ||
       (x.participantName !in NamesOf(s) && x.participantClass.None?))
  {
    SurvivorsMembership(s, names);
    forall x | x in Reconciled(s, names)
      ensures x.participantName in names && x.participantName != NameNone &&
        ((exists i :: 0 <= i < |s| && s[i] == x && IsLastWithName(s, i)) ||
         (x.participantName !in NamesOf(s) && x.participantClass.None?))
    {
      if x !in Survivors(s, names) {
        assert x in NewEntries(s, names);
      }
    }
  }

  /** Every aggregated name other than None has an entry after reconciliation. */
  lemma ReconciledCoversNames(s: seq<ParticipantClass>, names: set<Name>)
    ensures forall n :: n in names && n != NameNone ==>
      exists x :: x in Reconciled(s, names) && x.participantName == n
  {
    SurvivorsNames(s, names);
    var sv := Survivors(s, names);
    NamesOfMembership(sv);
    forall n | n in names && n != NameNone
      ensures exists x :: x in Reconciled(s, names) && x.participantName == n
    {
      if n in NamesOf(s) {
        assert n in NamesOf(sv);
        var i :| 0 <= i < |sv| && sv[i].participantName == n;
        assert sv[i] in multiset(sv);
      } else {
        assert ParticipantClass(n, None) in NewEntries(s, names);
      }
    }
  }

  /** Reconciling a list that already holds each aggregated name once, and
      nothing else, changes nothing but the order. */
  lemma ReconcileIsIdempotent(s: seq<ParticipantClass>, names: set<Name>)
    requires UniqueNames(s) && NamesOf(s) == names - {NameNone}
    ensures Reconciled(s, names) == multiset(s)
  {
    KeepsEverything(s, names);
    assert NewEntries(s, names) == {};
  }

  lemma {:induction false} KeepsEverything(s: seq<ParticipantClass>, names: set<Name>)
    requires UniqueNames(s) && NamesOf(s) <= names - {NameNone}
    ensures Survivors(s, names) == s
    decreases |s|
  {
    if s != [] {
      KeepsEverything(s[1..], names);
      assert s == [s[0]] + s[1..];
    }
  }

  /** TArray::RemoveAtSwap: the last element takes the place of the removed one. */
  function RemoveAtSwap(s: seq<ParticipantClass>, i: int): (r: seq<ParticipantClass>)
    requires 0 <= i < |s|
    ensures |r| == |s| - 1 && r[..i] == s[..i]
    ensures multiset(r[i..]) == multiset(s[i + 1..])
    ensures NamesOf(r[i..]) == NamesOf(s[i + 1..])
    ensures UniqueNames(s[i + 1..]) ==> UniqueNames(r[i..])
  {
    if i == |s| - 1 then s[..i]
    else
      var r := s[..i] + [s[|s| - 1]] + s[i + 1..|s| - 1];
      assert r[i..] == [s[|s| - 1]] + s[i + 1..|s| - 1];
      assert s[i + 1..] == s[i + 1..|s| - 1] + [s[|s| - 1]];
      NamesOfAppend([s[|s| - 1]], s[i + 1..|s| - 1]);
      NamesOfAppend(s[i + 1..|s| - 1], [s[|s| - 1]]);
      r
  }

  /** One step of the backward pass, for an entry `c` in front of the already
      examined `rest` whose kept part is `kept`: keeping `c` extends the invariant. */
  lemma {:induction false} KeepStep(c: ParticipantClass, rest: seq<ParticipantClass>, kept: seq<ParticipantClass>, names: set<Name>)
    requires c.participantName in names - NamesOf(rest) && c.participantName != NameNone
    requires multiset(kept) == multiset(Survivors(rest, names))
    requires NamesOf(kept) == NamesOf(rest) * names - {NameNone} && UniqueNames(kept)
    ensures multiset([c] + kept) == multiset(Survivors([c] + rest, names))
    ensures NamesOf([c] + kept) == NamesOf([c] + rest) * names - {NameNone}
    ensures UniqueNames([c] + kept)
  {
    assert ([c] + rest)[1..] == rest;
    assert ([c] + kept)[1..] == kept;
  }

  /** Dropping `c` extends the invariant when `c` is not kept. */
  lemma {:induction false} DropStep(c: ParticipantClass, rest: seq<ParticipantClass>, kept: seq<ParticipantClass>, names: set<Name>)
    requires c.participantName !in names - NamesOf(rest) || c.participantName == NameNone
    requires multiset(kept) == multiset(Survivors(rest, names))
    requires NamesOf(kept) == NamesOf(rest) * names - {NameNone}
    ensures multiset(kept) == multiset(Survivors([c] + rest, names))
    ensures NamesOf(kept) == NamesOf([c] + rest) * names - {NameNone}
  {
    assert ([c] + rest)[1..] == rest;
    assert Survivors([c] + rest, names) == [] + Survivors(rest, names);
  }

  /** What the backward pass has established once it has examined the entries
      from position `k` on: the entries before `k` are untouched, the entries from
      `k` on are the survivors of the examined suffix, and the remaining names are
      the aggregated names no examined entry had. */
  predicate PassedFrom(classes: seq<ParticipantClass>, names: set<Name>, r: seq<ParticipantClass>, remaining: set<Name>, k: int) {
    0 <= k <= |classes| && k <= |r| && r[..k] == classes[..k] &&
    multiset(r[k..]) == multiset(Survivors(classes[k..], names)) &&
    NamesOf(r[k..]) == NamesOf(classes[k..]) * names - {NameNone} &&
    UniqueNames(r[k..]) &&
    remaining == names - NamesOf(classes[k..])
  }

  /** One step of the backward pass: the entry at `i` is removed by swap when its
      name is None or no longer remaining, and its name stops being remaining. */
  method ExamineEntry(classes: seq<ParticipantClass>, names: set<Name>, r: seq<ParticipantClass>, remaining: set<Name>, i: int)
    returns (r': seq<ParticipantClass>, remaining': set<Name>)
    requires 0 <= i && PassedFrom(classes, names, r, remaining, i + 1)
    ensures PassedFrom(classes, names, r', remaining', i)
  {
    var c := classes[i];
    var rest := classes[i + 1..];
    var kept := r[i + 1..];
    assert r[i] == c;
    assert classes[i..] == [c] + rest;
    assert r[..i] == classes[..i];
    var examined := c.participantName;
    remaining' := remaining - {examined};
    assert remaining' == names - NamesOf(classes[i..]) by {
      assert classes[i..][1..] == rest;
    }
    if examined !in remaining || examined == NameNone {
      DropStep(c, rest, kept, names);
      r' := RemoveAtSwap(r, i);
      assert r'[..i] == classes[..i];
    } else {
      KeepStep(c, rest, kept, names);
      assert r[i..] == [c] + kept;
      r' := r;
    }
  }

  /** Step 1 of the reconciliation: the backward pass over the whole list. */
  method RemoveOutdatedEntries(classes: seq<ParticipantClass>, names: set<Name>) returns (r: seq<ParticipantClass>, remaining: set<Name>)
    ensures multiset(r) == multiset(Survivors(classes, names))
    ensures NamesOf(r) == NamesOf(classes) * names - {NameNone}
    ensures UniqueNames(r)
    ensures remaining == names - NamesOf(classes)
  {
    r := classes;
    remaining := names;
    var i := |classes| - 1;
    assert classes[|classes|..] == [];
    while i >= 0
      invariant -1 <= i && PassedFrom(classes, names, r, remaining, i + 1)
    {
      r, remaining := ExamineEntry(classes, names, r, remaining, i);
      i := i - 1;
    }
    assert classes[0..] == classes && r[0..] == r;
  }

  /** The unbound entries for the names of `left` other than None. */
  function Unbound(left: set<Name>): set<ParticipantClass> {
    set p | p in left && p != NameNone :: ParticipantClass(p, None)
  }

  lemma UnboundAdd(done: set<Name>, p: Name)
    ensures p != NameNone && p !in done ==>
      multiset(Unbound(done + {p})) == multiset(Unbound(done)) + multiset{ParticipantClass(p, None)}
    ensures p == NameNone ==> Unbound(done + {p}) == Unbound(done)
  {
    var e := ParticipantClass(p, None);
    if p != NameNone && p !in done {
      assert Unbound(done + {p}) == Unbound(done) + {e};
      assert e !in Unbound(done);
    }
  }

  /** What step 2 has established once the names of `left` are still to be
      added: the old entries lead unchanged, followed by one unbound entry for each
      added name other than None. */
  predicate AddedBut(classes: seq<ParticipantClass>, remaining: set<Name>, r: seq<ParticipantClass>, left: set<Name>) {
    left <= remaining &&
    |r| >= |classes| && r[..|classes|] == classes &&
    multiset(r) == multiset(classes) + multiset(Unbound(remaining - left)) &&
    NamesOf(r) == NamesOf(classes) + (remaining - left - {NameNone}) &&
    UniqueNames(r)
  }

  /** One iteration of step 2: takes some name `p` still left and adds the
      unbound entry for it, unless `p` is None. */
  method AddEntryForSomeName(classes: seq<ParticipantClass>, remaining: set<Name>, r: seq<ParticipantClass>, left: set<Name>)
    returns (r': seq<ParticipantClass>, left': set<Name>)
    requires NamesOf(classes) !! remaining
    requires left != {} && AddedBut(classes, remaining, r, left)
    ensures left' < left && AddedBut(classes, remaining, r', left')
  {
    var p :| p in left;
    left' := left - {p};
    var done := remaining - left;
    assert remaining - left' == done + {p};
    UnboundAdd(done, p);
    if p != NameNone {
      var e := ParticipantClass(p, None);
      assert p !in NamesOf(r);
      NamesOfAppend(r, [e]);
      assert NamesOf([e]) == {p} && UniqueNames([e]) by { assert [e][1..] == []; }
      assert (r + [e])[..|classes|] == r[..|classes|];
      r' := r + [e];
    } else {
      r' := r;
    }
  }

  /** Step 2 of the reconciliation: an unbound entry for each remaining name other
      than None, in no particular order. */
  method AddNewEntries(classes: seq<ParticipantClass>, remaining: set<Name>) returns (r: seq<ParticipantClass>)
    requires UniqueNames(classes) && NamesOf(classes) !! remaining
    ensures |r| >= |classes| && r[..|classes|] == classes
    ensures multiset(r) == multiset(classes) + multiset(Unbound(remaining))
    ensures NamesOf(r) == NamesOf(classes) + (remaining - {NameNone})
    ensures UniqueNames(r)
  {
    r := classes;
    var left := remaining;
    assert AddedBut(classes, remaining, r, left) by {
      assert remaining - left == {} && Unbound({}) == {};
      assert classes[..|classes|] == classes;
    }
    while left != {}
      invariant AddedBut(classes, remaining, r, left)
      decreases left
    {
      r, left := AddEntryForSomeName(classes, remaining, r, left);
    }
    AddedAll(classes, remaining, r);
  }

  lemma AddedAll(classes: seq<ParticipantClass>, remaining: set<Name>, r: seq<ParticipantClass>)
    requires AddedBut(classes, remaining, r, {})
    ensures |r| >= |classes| && r[..|classes|] == classes
    ensures multiset(r) == multiset(classes) + multiset(Unbound(remaining))
    ensures NamesOf(r) == NamesOf(classes) + (remaining - {NameNone})
    ensures UniqueNames(r)
  {
    assert remaining - {} == remaining;
  }

  /** The class an unbound entry gets when default classes are set automatically:
      the single blueprint candidate for its name if there is exactly one, else the
      single native candidate if there is exactly one, else none. */
  function AutoBound(e: ParticipantClass, blueprint: map<Name, seq<ClassName>>, native: map<Name, seq<ClassName>>): (r: ParticipantClass)
    ensures r.participantName == e.participantName
    ensures e.participantName == NameNone || e.participantClass.Some? ==> r == e
    ensures r.participantClass != e.participantClass ==>
      e.participantClass.None? &&
      ((e.participantName in blueprint && |blueprint[e.participantName]| == 1 &&
        r.participantClass == Some(blueprint[e.participantName][0])) ||
       (!(e.participantName in blueprint && |blueprint[e.participantName]| == 1) &&
        e.participantName in native && |native[e.participantName]| == 1 &&
        r.participantClass == Some(native[e.participantName][0])))
    ensures e.participantName != NameNone && e.participantClass.None? &&
            e.participantName in blueprint && |blueprint[e.participantName]| == 1 ==>
              r.participantClass == Some(blueprint[e.participantName][0])
    ensures e.participantName != NameNone && e.participantClass.None? &&
            !(e.participantName in blueprint && |blueprint[e.participantName]| == 1) &&
            e.participantName in native && |native[e.participantName]| == 1 ==>
              r.participantClass == Some(native[e.participantName][0])
  {
    var n := e.participantName;
    if n == NameNone || e.participantClass.Some? then e
    else if n in blueprint && |blueprint[n]| == 1 then e.(participantClass := Some(blueprint[n][0]))
    else if n in native && |native[n]| == 1 then e.(participantClass := Some(native[n][0]))
    else e
  }

  /** Binding again binds nothing more: a bound entry is left alone, and an entry
      left unbound finds the same candidates again. */
  lemma AutoBoundIsIdempotent(e: ParticipantClass, blueprint: map<Name, seq<ClassName>>, native: map<Name, seq<ClassName>>)
    ensures AutoBound(AutoBound(e, blueprint, native), blueprint, native) == AutoBound(e, blueprint, native)
  {
  }

  /** Step 3 of the reconciliation: every entry passed through AutoBound. */
  method AutoSetDefaultClasses(classes: seq<ParticipantClass>, blueprint: map<Name, seq<ClassName>>, native: map<Name, seq<ClassName>>)
    returns (r: seq<ParticipantClass>)
    ensures |r| == |classes|
    ensures forall i :: 0 <= i < |r| ==> r[i] == AutoBound(classes[i], blueprint, native)
  {
    r := classes;
    var i := 0;
    while i < |r|
      invariant 0 <= i <= |r| == |classes|
      invariant forall j :: 0 <= j < i ==> r[j] == AutoBound(classes[j], blueprint, native)
      invariant forall j :: i <= j < |r| ==> r[j] == classes[j]
    {
      r := r[i := AutoBound(r[i], blueprint, native)];
      i := i + 1;
    }
  }

  /** Auto-binding keeps the names, and with them the properties reconciliation
      established. */
  lemma AutoBindKeepsNames(classes: seq<ParticipantClass>, r: seq<ParticipantClass>, blueprint: map<Name, seq<ClassName>>, native: map<Name, seq<ClassName>>)
    requires |r| == |classes|
    requires forall i :: 0 <= i < |r| ==> r[i] == AutoBound(classes[i], blueprint, native)
    ensures NamesOf(r) == NamesOf(classes)
    ensures UniqueNames(classes) ==> UniqueNames(r)
  {
    assert forall i :: 0 <= i < |r| ==> r[i].participantName == classes[i].participantName;
    SameNamesKeepUniqueness(classes, r);
  }

  lemma {:induction false} SameNamesKeepUniqueness(a: seq<ParticipantClass>, b: seq<ParticipantClass>)
    requires |a| == |b| && forall i :: 0 <= i < |a| ==> a[i].participantName == b[i].participantName
    ensures NamesOf(a) == NamesOf(b)
    ensures UniqueNames(a) ==> UniqueNames(b)
    decreases |a|
  {
    if a != [] {
      SameNamesKeepUniqueness(a[1..], b[1..]);
    }
  }

  /** The class half of UpdateAndRefreshData on values: the outdated entries are
      dropped, an unbound entry is added for every new name, and, when
      `bindDefaults` holds, every unbound entry is then auto-bound. */
  method ReconcileClasses(classes: seq<ParticipantClass>, names: set<Name>, bindDefaults: bool,
                          blueprint: map<Name, seq<ClassName>>, native: map<Name, seq<ClassName>>)
    returns (r: seq<ParticipantClass>)
    ensures NamesOf(r) == names - {NameNone}
    ensures UniqueNames(r)
    ensures !bindDefaults ==> multiset(r) == Reconciled(classes, names)
    ensures bindDefaults ==>
      exists unbound: seq<ParticipantClass> ::
        multiset(unbound) == Reconciled(classes, names) &&
        |r| == |unbound| &&
        forall i :: 0 <= i < |unbound| ==> r[i] == AutoBound(unbound[i], blueprint, native)
  {
    var kept, remaining := RemoveOutdatedEntries(classes, names);
    assert NamesOf(kept) !! remaining;
    r := AddNewEntries(kept, remaining);
    assert NamesOf(r) == names - {NameNone} by {
      assert NamesOf(r) == (NamesOf(classes) * names - {NameNone}) + (names - NamesOf(classes) - {NameNone});
    }
    ghost var unbound := r;
    assert multiset(unbound) == Reconciled(classes, names);
    if bindDefaults {
      r := AutoSetDefaultClasses(r, blueprint, native);
      AutoBindKeepsNames(unbound, r, blueprint, native);
    }
  }
}
