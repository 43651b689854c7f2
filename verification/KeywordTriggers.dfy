/** What the block and attack derivations share: printed keyword instances, and the drafts
    that one source contributes, one per instance. */
module KeywordTriggers {
  import opened Orders

  datatype Kind = Flanking | Bushido | Exalted | BattleCry | Melee | Mentor | Dethrone | Training

  /** The name a kind sorts under. */
  function KindName(k: Kind): string {
    match k
    case Flanking => "flanking"
    case Bushido => "bushido"
    case Exalted => "exalted"
    case BattleCry => "battle_cry"
    case Melee => "melee"
    case Mentor => "mentor"
    case Dethrone => "dethrone"
    case Training => "training"
  }

  lemma KindNamesDiffer(k: Kind, l: Kind)
    ensures KindName(k) == KindName(l) ==> k == l
  {
  }

  datatype PrintedSpec = PrintedSpec(kind: Kind, amount: int)

  predicate ValidSpec(s: PrintedSpec) {
    s.amount > 0 && (s.kind != Bushido ==> s.amount == 1)
  }

  /** One printed or granted instance; only Bushido counts more than one. */
  type Spec = s: PrintedSpec | ValidSpec(s) witness PrintedSpec(Flanking, 1)

  function Digit(d: nat): char
    requires d < 10
  {
    "0123456789"[d]
  }

  function Decimal(n: nat): string {
    if n < 10 then [Digit(n)] else Decimal(n / 10) + [Digit(n % 10)]
  }

  lemma {:induction false} DecimalsDiffer(m: nat, n: nat)
    requires Decimal(m) == Decimal(n)
    ensures m == n
  {
    if m >= 10 && n >= 10 {
      assert Decimal(m)[..|Decimal(m)| - 1] == Decimal(m / 10);
      assert Decimal(n)[..|Decimal(n)| - 1] == Decimal(n / 10);
      DecimalsDiffer(m / 10, n / 10);
    }
  }

  /** The order of serialised instances: the amount as text, then the keyword. */
  function SpecKey(s: Spec): Key {
    Tup([Str(Decimal(s.amount)), Str(KindName(s.kind))])
  }

  lemma SpecKeysDiffer(s: Spec, t: Spec)
    requires SpecKey(s) == SpecKey(t)
    ensures s == t
  {
    assert SpecKey(s).parts[0] == SpecKey(t).parts[0] && SpecKey(s).parts[1] == SpecKey(t).parts[1];
    DecimalsDiffer(s.amount, t.amount);
    KindNamesDiffer(s.kind, t.kind);
  }

  /** The instances as a participant stores them. */
  function Printed(specs: seq<Spec>): (r: seq<Spec>)
    ensures multiset(r) == multiset(specs)
  {
    Sort(ByKey(SpecKey), specs)
  }

  lemma InsertSpecsCommute(x: Spec, y: Spec, s: seq<Spec>)
    ensures var lt := ByKey(SpecKey); Insert(lt, x, Insert(lt, y, s)) == Insert(lt, y, Insert(lt, x, s))
  {
    if x != y {
      if SpecKey(x) == SpecKey(y) { SpecKeysDiffer(x, y); }
      ByKeyOrder(SpecKey);
      KeyTrichotomy(SpecKey(x), SpecKey(y));
      forall z, w: Spec ensures z == w || ByKey(SpecKey)(z, w) || ByKey(SpecKey)(w, z) {
        KeyTrichotomy(SpecKey(z), SpecKey(w));
        if SpecKey(z) == SpecKey(w) { SpecKeysDiffer(z, w); }
      }
      InsertsCommute(ByKey(SpecKey), x, y, s);
    }
  }

  lemma {:induction false} InsertsCommute<T(!new)>(lt: (T, T) -> bool, x: T, y: T, s: seq<T>)
    requires StrictOrder(lt) && (lt(x, y) || lt(y, x))
    requires forall z :: z in s ==> (z == x || lt(z, x) || lt(x, z)) && (z == y || lt(z, y) || lt(y, z))
    ensures Insert(lt, x, Insert(lt, y, s)) == Insert(lt, y, Insert(lt, x, s))
  {
    if s == [] {
      if lt(x, y) { CommuteInFront(lt, x, y, s); } else { CommuteInFront(lt, y, x, s); }
    } else {
      var h, rest := s[0], s[1..];
      assert s == [h] + rest;
      assert h in s && forall z :: z in rest ==> z in s;
      if lt(h, x) && lt(h, y) {
        InsertsCommute(lt, x, y, rest);
      } else if lt(h, x) {
      } else if lt(h, y) {
      } else if lt(x, y) {
        CommuteInFront(lt, x, y, s);
      } else {
        CommuteInFront(lt, y, x, s);
      }
    }
  }

  lemma CommuteInFront<T(!new)>(lt: (T, T) -> bool, x: T, y: T, s: seq<T>)
    requires lt(x, y) && !lt(y, x) && (s == [] || (!lt(s[0], x) && !lt(s[0], y)))
    ensures Insert(lt, x, Insert(lt, y, s)) == Insert(lt, y, Insert(lt, x, s))
  {
    assert ([x] + s)[1..] == s;
    assert Insert(lt, x, s) == [x] + s && Insert(lt, y, s) == [y] + s;
    assert Insert(lt, y, [x] + s) == [x] + Insert(lt, y, s);
    assert Insert(lt, x, [y] + s) == [x] + ([y] + s);
  }

  /** Numerals are compared as text: each digit in turn, the shorter first when it runs out. */
  function Value(s: string): int {
    if s == [] then 0 else 10 * Value(s[..|s| - 1]) + (s[|s| - 1] as int - '0' as int)
  }

  lemma {:induction false} DecimalReads(n: nat)
    ensures Value(Decimal(n)) == n && Decimal(n) != []
    ensures forall c :: c in Decimal(n) ==> '0' <= c <= '9'
    ensures n > 0 ==> Decimal(n)[0] != '0'
  {
    if n < 10 {
      assert Decimal(n)[..0] == [];
    } else {
      DecimalReads(n / 10);
      assert Decimal(n)[..|Decimal(n)| - 1] == Decimal(n / 10);
    }
  }

  /** The keywords in the order of their names. */
  const KINDS: seq<Kind> := [BattleCry, Bushido, Dethrone, Exalted, Flanking, Melee, Mentor, Training]

  lemma KindsByName(i: nat)
    requires i + 1 < |KINDS|
    ensures StrLess(KindName(KINDS[i]), KindName(KINDS[i + 1]))
  {
    hide StrLess;
    FirstDifference(KindName(BattleCry), KindName(Bushido), 1);
    FirstDifference(KindName(Bushido), KindName(Dethrone), 0);
    FirstDifference(KindName(Dethrone), KindName(Exalted), 0);
    FirstDifference(KindName(Exalted), KindName(Flanking), 0);
    FirstDifference(KindName(Flanking), KindName(Melee), 0);
    FirstDifference(KindName(Melee), KindName(Mentor), 2);
    FirstDifference(KindName(Mentor), KindName(Training), 0);
  }

  lemma FirstDifference(a: string, b: string, n: nat)
    requires n < |a| && n < |b| && a[..n] == b[..n] && a[n] < b[n]
    ensures StrLess(a, b)
  {
    StrLessIff(a, b);
  }

  /** Printed instances go by the decimal numerals of their amounts, compared as text, and then by
      the names of their keywords. */
  lemma PrintedInOrder(specs: seq<Spec>, i: nat, j: nat)
    requires i < j < |specs|
    ensures var s, t := Printed(specs)[i], Printed(specs)[j];
            || StrLess(Decimal(s.amount), Decimal(t.amount))
            || (s.amount == t.amount && (s.kind == t.kind || StrLess(KindName(s.kind), KindName(t.kind))))
  {
    hide KeyLess, SpecKey, StrLess, Decimal, KindName;
    ByKeyOrder(SpecKey);
    forall a, b: Spec ensures a == b || ByKey(SpecKey)(a, b) || ByKey(SpecKey)(b, a) {
      KeyTrichotomy(SpecKey(a), SpecKey(b));
      if SpecKey(a) == SpecKey(b) { SpecKeysDiffer(a, b); }
    }
    SortWeakly(ByKey(SpecKey), specs);
    var s, t := Printed(specs)[i], Printed(specs)[j];
    if s != t { SpecSteps(s, t); }
  }

  lemma SpecSteps(s: Spec, t: Spec)
    requires KeyLess(SpecKey(s), SpecKey(t))
    ensures || StrLess(Decimal(s.amount), Decimal(t.amount))
            || (s.amount == t.amount && StrLess(KindName(s.kind), KindName(t.kind)))
  {
    hide StrLess, Decimal, KindName;
    var p, q := SpecKey(s).parts, SpecKey(t).parts;
    TupLessStep(p, q);
    TupLessStep(p[1..], q[1..]);
    if p[0] == q[0] { DecimalsDiffer(s.amount, t.amount); }
  }

  /** Equal multisets of instances print the same, so an instance keeps its index however the
      instances were enumerated. */
  lemma {:induction false} PrintingIsCanonical(s: seq<Spec>, t: seq<Spec>)
    requires multiset(s) == multiset(t)
    ensures Printed(s) == Printed(t)
  {
    hide *;
    SameMultiset(s, t);
    if s == [] {
      if t != [] { NonEmptyHasElement(t); assert false; }
    } else {
      assert s[0] in t;
      var k :| 0 <= k < |t| && t[k] == s[0];
      var rest := t[..k] + t[k + 1..];
      WithoutOne(s, t, k);
      PrintingIsCanonical(s[1..], rest);
      Extracted(s, 0);
      Extracted(t, k);
      assert s[..0] + s[1..] == s[1..];
    }
  }

  lemma WithoutOne<T>(s: seq<T>, t: seq<T>, k: nat)
    requires multiset(s) == multiset(t) && s != [] && k < |t| && t[k] == s[0]
    ensures multiset(s[1..]) == multiset(t[..k] + t[k + 1..])
  {
    assert s == [s[0]] + s[1..] && t == t[..k] + [t[k]] + t[k + 1..];
    assert multiset(s[1..]) == multiset(s) - multiset{s[0]};
    assert multiset(t[..k] + t[k + 1..]) == multiset(t) - multiset{s[0]};
  }

  lemma {:induction false} Extracted(t: seq<Spec>, k: nat)
    requires k < |t|
    ensures Printed(t) == Insert(ByKey(SpecKey), t[k], Printed(t[..k] + t[k + 1..]))
  {
    hide KeyLess, SpecKey, Insert;
    var rest := t[..k] + t[k + 1..];
    if k == 0 {
      assert rest == t[1..];
    } else {
      Extracted(t[1..], k - 1);
      assert t[1..][..k - 1] + t[1..][k..] == rest[1..];
      assert rest[0] == t[0];
      InsertSpecsCommute(t[0], t[k], Printed(rest[1..]));
    }
  }

  /** Physical and logical identity, and the public reference, of one object. */
  datatype Identity = Identity(objectId: string, logicalId: string, reference: string)

  predicate ValidIdentity(i: Identity) {
    i.objectId != "" && i.logicalId != "" && i.reference != ""
  }

  /** The instances of one keyword, in printed order; an index into them names an instance. */
  function Instances(specs: seq<Spec>, kind: Kind): (r: seq<Spec>)
    ensures |r| <= |specs|
    ensures forall s :: s in r <==> s in specs && s.kind == kind
  {
    if specs == [] then []
    else
      assert specs == [specs[0]] + specs[1..];
      (if specs[0].kind == kind then [specs[0]] else []) + Instances(specs[1..], kind)
  }

  /** How many of the first `n` printed instances are of the keyword. */
  function Copies(specs: seq<Spec>, kind: Kind, n: nat): nat
    requires n <= |specs|
  {
    if n == 0 then 0 else Copies(specs, kind, n - 1) + if specs[n - 1].kind == kind then 1 else 0
  }

  lemma {:induction false} CopiesStep(specs: seq<Spec>, kind: Kind, n: nat)
    requires 0 < n <= |specs|
    ensures Copies(specs, kind, n) == (if specs[0].kind == kind then 1 else 0) + Copies(specs[1..], kind, n - 1)
    ensures Copies(specs, kind, 0) == 0
  {
    if n > 1 { CopiesStep(specs, kind, n - 1); }
  }

  /** A printed instance of the keyword has as its index how many came before it, and there are as
      many indices as printed instances. */
  lemma {:induction false} InstanceAt(specs: seq<Spec>, kind: Kind, k: nat)
    requires k <= |specs|
    ensures |Instances(specs, kind)| == Copies(specs, kind, |specs|)
    ensures k < |specs| && specs[k].kind == kind ==>
              && Copies(specs, kind, k) < |Instances(specs, kind)|
              && Instances(specs, kind)[Copies(specs, kind, k)] == specs[k]
  {
    hide Copies;
    if specs == [] {
      NoCopies(kind);
    } else {
      InstanceAt(specs[1..], kind, if k == 0 then 0 else k - 1);
      CopiesStep(specs, kind, |specs|);
      if k > 0 { CopiesStep(specs, kind, k); }
    }
  }

  lemma NoCopies(kind: Kind)
    ensures Copies([], kind, 0) == 0
  {
  }

  predicate Has(specs: seq<Spec>, kind: Kind) {
    exists i :: 0 <= i < |specs| && specs[i].kind == kind
  }

  /** The amounts printed on the instances of one keyword. */
  function Amounts(specs: seq<Spec>, kind: Kind): (r: seq<nat>)
    ensures |r| == |Instances(specs, kind)|
    ensures forall i :: 0 <= i < |r| ==> r[i] == Instances(specs, kind)[i].amount && r[i] > 0
  {
    var instances := Instances(specs, kind);
    seq(|instances|, i requires 0 <= i < |instances| =>
      assert instances[i] in instances;
      instances[i].amount)
  }

  /** One draft per instance; a job is what one source does to one affected object. */
  datatype Job<+S, +A> = Job(kind: Kind, source: S, affected: A, amounts: seq<nat>)

  datatype Draft<+S, +A> = Draft(kind: Kind, source: S, affected: A, amount: nat, index: nat)

  predicate FromJob<S(==), A(==)>(job: Job<S, A>, d: Draft<S, A>) {
    && d.kind == job.kind && d.source == job.source && d.affected == job.affected
    && d.index < |job.amounts| && d.amount == job.amounts[d.index]
  }

  function JobDrafts<S, A>(job: Job<S, A>): (r: seq<Draft<S, A>>)
    ensures |r| == |job.amounts|
    ensures forall i :: 0 <= i < |r| ==> r[i] == Draft(job.kind, job.source, job.affected, job.amounts[i], i)
  {
    seq(|job.amounts|, i requires 0 <= i < |job.amounts| =>
      Draft(job.kind, job.source, job.affected, job.amounts[i], i))
  }

  function Drafts<S, A>(jobs: seq<Job<S, A>>): seq<Draft<S, A>> {
    if jobs == [] then [] else Drafts(jobs[..|jobs| - 1]) + JobDrafts(jobs[|jobs| - 1])
  }

  function Owed<S, A>(jobs: seq<Job<S, A>>): nat {
    if jobs == [] then 0 else Owed(jobs[..|jobs| - 1]) + |jobs[|jobs| - 1].amounts|
  }

  /** Adds one draft per instance of a job. */
  method Enqueue<S, A>(drafts: seq<Draft<S, A>>, job: Job<S, A>) returns (r: seq<Draft<S, A>>)
    ensures r == drafts + JobDrafts(job)
  {
    r := drafts;
    for index := 0 to |job.amounts|
      invariant r == drafts + JobDrafts(job)[..index]
    {
      r := r + [Draft(job.kind, job.source, job.affected, job.amounts[index], index)];
    }
  }

  lemma DraftsStep<S, A>(jobs: seq<Job<S, A>>, job: Job<S, A>)
    ensures Drafts(jobs + [job]) == Drafts(jobs) + JobDrafts(job)
    ensures Owed(jobs + [job]) == Owed(jobs) + |job.amounts|
  {
    assert (jobs + [job])[..|jobs|] == jobs;
  }

  /** No two jobs share keyword, source and affected object. */
  ghost predicate DistinctJobs<S, A>(jobs: seq<Job<S, A>>) {
    forall i, j :: 0 <= i < j < |jobs| ==>
      jobs[i].kind != jobs[j].kind || jobs[i].source != jobs[j].source || jobs[i].affected != jobs[j].affected
  }

  /** A draft is due exactly when some job contributes it. */
  lemma {:induction false} DraftMembers<S(!new), A(!new)>(jobs: seq<Job<S, A>>, d: Draft<S, A>)
    ensures d in Drafts(jobs) <==> exists j :: 0 <= j < |jobs| && FromJob(jobs[j], d)
    ensures |Drafts(jobs)| == Owed(jobs)
  {
    if jobs == [] {
    } else {
      var n := |jobs| - 1;
      DraftMembers(jobs[..n], d);
      assert forall j :: 0 <= j < n ==> jobs[..n][j] == jobs[j];
      assert (exists j :: 0 <= j < |jobs| && FromJob(jobs[j], d)) <==>
             (exists j :: 0 <= j < n && FromJob(jobs[..n][j], d)) || FromJob(jobs[n], d);
    }
  }

  /** Drafts of distinct jobs never repeat: equal heads and index force equal position. */
  lemma {:induction false} DraftsAreDistinct<S(!new), A(!new)>(jobs: seq<Job<S, A>>)
    requires DistinctJobs(jobs)
    ensures Distinct(Drafts(jobs))
  {
    if jobs == [] {
    } else {
      var n := |jobs| - 1;
      DraftsAreDistinct(jobs[..n]);
      var before, last := Drafts(jobs[..n]), JobDrafts(jobs[n]);
      forall d | d in before ensures d !in last {
        DraftMembers(jobs[..n], d);
        var j :| 0 <= j < n && FromJob(jobs[..n][j], d);
        assert jobs[..n][j] == jobs[j];
      }
      ConcatDistinct(before, last);
    }
  }

  lemma ConcatDistinct<T>(s: seq<T>, t: seq<T>)
    requires Distinct(s) && Distinct(t) && forall x :: x in s ==> x !in t
    ensures Distinct(s + t)
  {
    forall i, j | 0 <= i < j < |s + t| ensures (s + t)[i] != (s + t)[j] {
      if i < |s| <= j {
        assert (s + t)[i] in s && (s + t)[j] in t;
      }
    }
  }

  /** Each instance of a due job contributes exactly one draft. */
  lemma EachInstanceOnce<S(!new), A(!new)>(jobs: seq<Job<S, A>>, j: nat, index: nat)
    requires DistinctJobs(jobs) && j < |jobs| && index < |jobs[j].amounts|
    ensures var d := Draft(jobs[j].kind, jobs[j].source, jobs[j].affected, jobs[j].amounts[index], index);
            multiset(Drafts(jobs))[d] == 1
  {
    var d := Draft(jobs[j].kind, jobs[j].source, jobs[j].affected, jobs[j].amounts[index], index);
    assert FromJob(jobs[j], d);
    DraftMembers(jobs, d);
    DraftsAreDistinct(jobs);
    DistinctByMultiset(Drafts(jobs));
    assert d in multiset(Drafts(jobs));
  }

  /** Announcing drafts in key order gives occurrences in key order. */
  lemma AnnouncedInOrder<D(!new), O(!new)>(key: D -> Key, ds: seq<D>, okey: O -> Key, announce: D -> O, os: seq<O>)
    requires Sorted(ByKey(key), ds) && |os| == |ds| && forall i :: 0 <= i < |ds| ==> os[i] == announce(ds[i])
    requires forall d :: okey(announce(d)) == key(d)
    ensures Sorted(ByKey(okey), os)
  {
    hide KeyLess;
    forall i, j | 0 <= i < j < |os| ensures ByKey(okey)(os[i], os[j]) {
      assert ByKey(key)(ds[i], ds[j]);
      assert okey(os[i]) == key(ds[i]) && okey(os[j]) == key(ds[j]);
    }
  }

  /** No two jobs share keyword and source. */
  ghost predicate DistinctHeads<S, A>(jobs: seq<Job<S, A>>) {
    forall i, j :: 0 <= i < j < |jobs| ==> jobs[i].kind != jobs[j].kind || jobs[i].source != jobs[j].source
  }

  lemma HeadsTellApart<S(!new), A(!new)>(jobs: seq<Job<S, A>>, d: Draft<S, A>, e: Draft<S, A>)
    requires DistinctHeads(jobs) && d in Drafts(jobs) && e in Drafts(jobs)
    requires d.kind == e.kind && d.source == e.source && d.index == e.index
    ensures d == e
  {
    hide Drafts;
    DraftMembers(jobs, d);
    DraftMembers(jobs, e);
    var i :| 0 <= i < |jobs| && FromJob(jobs[i], d);
    var j :| 0 <= j < |jobs| && FromJob(jobs[j], e);
    assert i == j;
  }

  // ----- announcing -----

  /** `os` lists, in key order, what is due, no more and no less, and all of it is valid. */
  ghost predicate Announces<O(!new)>(key: O -> Key, due: O -> bool, valid: O -> bool, os: seq<O>) {
    && Sorted(ByKey(key), os)
    && forall o :: (o in os <==> due(o)) && (o in os ==> valid(o))
  }

  /** There is only one such list, and it repeats nothing. */
  lemma AnnouncementIsDetermined<O(!new)>(key: O -> Key, due: O -> bool, valid: O -> bool, os: seq<O>, qs: seq<O>)
    requires Announces(key, due, valid, os) && Announces(key, due, valid, qs)
    ensures os == qs && Distinct(os)
  {
    hide KeyLess;
    ByKeyOrder(key);
    SortedUnique(ByKey(key), os, qs);
    SortedIsDistinct(ByKey(key), os);
  }

  /** Some job contributes the draft. */
  ghost predicate Contributed<S(!new), A(!new)>(jobs: seq<Job<S, A>>, d: Draft<S, A>) {
    exists j :: 0 <= j < |jobs| && FromJob(jobs[j], d)
  }

  /** What the jobs contribute is due and valid, and whatever is due some job contributes. */
  ghost predicate Announceable<S(!new), A(!new), O(!new)>(jobs: seq<Job<S, A>>, announce: Draft<S, A> -> O,
                                                         due: O -> bool, valid: O -> bool)
  {
    && (forall d :: Contributed(jobs, d) ==> due(announce(d)) && valid(announce(d)))
    && forall o :: due(o) ==> exists d :: Contributed(jobs, d) && announce(d) == o
  }

  lemma SortedContributions<S(!new), A(!new)>(jobs: seq<Job<S, A>>, key: Draft<S, A> -> Key, ds: seq<Draft<S, A>>)
    requires UniqueKeys(key, Drafts(jobs)) && ds == Sort(ByKey(key), Drafts(jobs))
    ensures Sorted(ByKey(key), ds) && |ds| == Owed(jobs)
    ensures forall d :: d in ds <==> Contributed(jobs, d)
  {
    hide Drafts, FromJob, ByKey, Sorted;
    SortByUniqueKey(key, Drafts(jobs));
    forall d ensures (d in ds <==> Contributed(jobs, d)) && |Drafts(jobs)| == Owed(jobs) {
      DraftMembers(jobs, d);
    }
    DraftCount(jobs);
  }

  lemma {:induction false} DraftCount<S, A>(jobs: seq<Job<S, A>>)
    ensures |Drafts(jobs)| == Owed(jobs)
  {
    if jobs == [] {
    } else {
      DraftCount(jobs[..|jobs| - 1]);
    }
  }

  lemma AnnouncedAll<S(!new), A(!new), O(!new)>(jobs: seq<Job<S, A>>, ds: seq<Draft<S, A>>, os: seq<O>,
                                                announce: Draft<S, A> -> O,
                                                due: O -> bool, valid: O -> bool)
    requires Announceable(jobs, announce, due, valid) && forall d :: d in ds <==> Contributed(jobs, d)
    requires |os| == |ds| && forall i :: 0 <= i < |ds| ==> os[i] == announce(ds[i])
    ensures forall o :: (o in os <==> due(o)) && (o in os ==> valid(o))
  {
    hide Contributed;
    forall o ensures (o in os <==> due(o)) && (o in os ==> valid(o)) {
      if o in os {
        var i :| 0 <= i < |os| && os[i] == o;
        assert ds[i] in ds;
      }
      if due(o) {
        var d :| Contributed(jobs, d) && announce(d) == o;
        var i :| 0 <= i < |ds| && ds[i] == d;
        assert os[i] == o;
      }
    }
  }

  /** Sorts the drafts and constructs their occurrences; none is ever refused. */
  method Announce<S(!new), A(!new), O(!new)>(ghost jobs: seq<Job<S, A>>, drafts: seq<Draft<S, A>>,
                                             key: Draft<S, A> -> Key,
                                             announce: Draft<S, A> -> O, valid: O -> bool,
                                             ghost okey: O -> Key, ghost due: O -> bool)
    returns (os: seq<O>)
    requires drafts == Drafts(jobs) && UniqueKeys(key, drafts) && Announceable(jobs, announce, due, valid)
    requires forall d :: okey(announce(d)) == key(d)
    ensures Announces(okey, due, valid, os) && |os| == Owed(jobs)
  {
    hide Drafts, Contributed, UniqueKeys, ByKey, Sorted, Sort, Owed, FromJob, KeyLess, SameElements;
    var ds := Sort(ByKey(key), drafts);
    SortedContributions(jobs, key, ds);
    os := [];
    for i := 0 to |ds|
      invariant |os| == i && forall k :: 0 <= k < i ==> os[k] == announce(ds[k])
    {
      assert ds[i] in ds;
      var o := announce(ds[i]);
      assert valid(o);
      os := os + [o];
    }
    AnnouncedAll(jobs, ds, os, announce, due, valid);
    AnnouncedInOrder(key, ds, okey, announce, os);
  }
}
