/** The names of printed sections: a kind and a running number in decimal. Over any sequence of
    frames in any phases the numbers of a kind count up from zero, so names do not collide until
    a `size_t` counter wraps around. */
module SectionNumbers {
  import opened CTypes
  import opened Codec
  import opened RequestPlan
  import opened StatsReceiver

  datatype Kind = Network | Link(dir: Dir)

  function KindOf(x: Section): Kind {
    match x
    case NwSection(_, _, _) => Network
    case LinkSection(dir, _, _, _, _) => Link(dir)
  }

  function Count(k: Kind, xs: seq<Section>): nat {
    if xs == [] then 0 else Count(k, xs[..|xs| - 1]) + if KindOf(xs[|xs| - 1]) == k then 1 else 0
  }

  /** Every section carries the number of sections of its kind before it. */
  ghost predicate Numbered(xs: seq<Section>) {
    xs != [] ==>
      && Numbered(xs[..|xs| - 1])
      && xs[|xs| - 1].number == ToSize(Count(KindOf(xs[|xs| - 1]), xs[..|xs| - 1]))
  }

  /** The counters go with the sections printed so far. */
  ghost predicate Tidy(o: Output) {
    && Numbered(o.sections)
    && o.n.nw == ToSize(Count(Network, o.sections))
    && o.n.tx == ToSize(Count(Link(Transmit), o.sections))
    && o.n.rx == ToSize(Count(Link(Receive), o.sections))
  }

  lemma CountSnoc(k: Kind, xs: seq<Section>, x: Section)
    ensures Count(k, xs + [x]) == Count(k, xs) + if KindOf(x) == k then 1 else 0
  {
    assert (xs + [x])[..|xs|] == xs;
  }

  function Bumped(n: Counters, k: Kind): Counters {
    match k
    case Network => n.(nw := Bump(n.nw))
    case Link(dir) => BumpDir(n, dir)
  }

  lemma AppendTidy(o: Output, x: Section)
    requires Tidy(o) && x.number == ToSize(Count(KindOf(x), o.sections))
    ensures Tidy(Output(Bumped(o.n, KindOf(x)), o.sections + [x]))
  {
    var xs := o.sections + [x];
    assert xs[..|o.sections|] == o.sections && xs[|o.sections|] == x;
    BumpWraps(Count(KindOf(x), o.sections));
    CountSnoc(Network, o.sections, x);
    CountSnoc(Link(Transmit), o.sections, x);
    CountSnoc(Link(Receive), o.sections, x);
  }

  lemma EmitTidy(phase: Dir, o: Output, c: Call)
    requires Callable(c) && Tidy(o)
    ensures Tidy(Emit(phase, o, c))
  {
    match c {
      case RecordCall(_, _, osa, record) =>
        AppendTidy(o, NwSection(o.n.nw, osa, record));
      case LinkStatsCall(_, osa, head, tail, len) =>
        if head[1] == 0 && FieldSize(phase) <= len {
          AppendTidy(o, LinkSection(phase, Number(o.n, phase), osa, head[0], tail[..FieldSize(phase)]));
        }
    }
  }

  lemma {:induction false} EmitAllTidy(phase: Dir, o: Output, calls: seq<Call>)
    requires AllCallable(calls) && Tidy(o)
    ensures Tidy(EmitAll(phase, o, calls))
    decreases |calls|
  {
    if calls != [] {
      EmitAllTidy(phase, o, calls[..|calls| - 1]);
      EmitTidy(phase, EmitAll(phase, o, calls[..|calls| - 1]), calls[|calls| - 1]);
    }
  }

  /** One frame keeps numbers and counters in step, whatever is in it. */
  lemma HandleTidy(phase: Dir, o: Output, data: seq<byte>)
    requires Tidy(o)
    ensures Tidy(Handle(phase, o, data))
  {
    var f := Read(data);
    CallsAreCallable(f);
    EmitAllTidy(phase, o, Outcome(SLOTS, f).calls);
  }

  // ----- numbers of a kind -----

  lemma {:induction false} CountPrefix(k: Kind, xs: seq<Section>, i: nat)
    requires i <= |xs|
    ensures Count(k, xs[..i]) <= Count(k, xs)
    ensures i < |xs| && KindOf(xs[i]) == k ==> Count(k, xs[..i]) < Count(k, xs)
    decreases |xs|
  {
    if i < |xs| {
      var front := xs[..|xs| - 1];
      assert front[..i] == xs[..i];
      CountPrefix(k, front, i);
    } else {
      assert xs[..i] == xs;
    }
  }

  lemma {:induction false} NumberAt(xs: seq<Section>, i: nat)
    requires Numbered(xs) && i < |xs|
    ensures xs[i].number == ToSize(Count(KindOf(xs[i]), xs[..i]))
    decreases |xs|
  {
    if i < |xs| - 1 {
      assert xs[..|xs| - 1][..i] == xs[..i];
      NumberAt(xs[..|xs| - 1], i);
    }
  }

  /** The n-th section of a kind. */
  lemma {:induction false} NthOf(k: Kind, xs: seq<Section>, n: nat) returns (i: nat)
    requires n < Count(k, xs)
    ensures i < |xs| && KindOf(xs[i]) == k && Count(k, xs[..i]) == n
    decreases |xs|
  {
    var last := |xs| - 1;
    if n < Count(k, xs[..last]) {
      i := NthOf(k, xs[..last], n);
      assert xs[..last][..i] == xs[..i];
    } else {
      i := last;
    }
  }

  // ----- names -----

  function DigitChar(d: nat): char
    requires d < 10
  {
    '0' + d as char
  }

  /** `%lu`. */
  function Decimal(n: nat): (s: string)
    ensures s != [] && forall c :: c in s ==> '0' <= c <= '9'
  {
    if n < 10 then [DigitChar(n)] else Decimal(n / 10) + [DigitChar(n % 10)]
  }

  /** What a string of digits stands for. */
  function Denoted(s: string): int {
    if s == [] then 0 else 10 * Denoted(s[..|s| - 1]) + (s[|s| - 1] as int - '0' as int)
  }

  /** The number printed is the number meant, and has no leading zero. */
  lemma {:induction false} DecimalDenotes(n: nat)
    ensures Denoted(Decimal(n)) == n && (Decimal(n)[0] == '0' ==> n == 0)
  {
    var s := Decimal(n);
    if n < 10 {
      assert s[..0] == [];
    } else {
      DecimalDenotes(n / 10);
      assert s[..|s| - 1] == Decimal(n / 10) && s[0] == Decimal(n / 10)[0];
    }
  }

  lemma {:induction false} DecimalInjective(m: nat, n: nat)
    requires Decimal(m) == Decimal(n)
    ensures m == n
  {
    var s := Decimal(m);
    if m < 10 && n < 10 {
      assert s[0] == DigitChar(m) && s[0] == DigitChar(n);
    } else if 10 <= m && 10 <= n {
      LastDigit(Decimal(m / 10), m % 10, Decimal(n / 10), n % 10);
      DecimalInjective(m / 10, n / 10);
      assert m == 10 * (m / 10) + m % 10 && n == 10 * (n / 10) + n % 10;
    }
  }

  lemma LastDigit(s: string, d: nat, t: string, e: nat)
    requires d < 10 && e < 10 && s + [DigitChar(d)] == t + [DigitChar(e)]
    ensures s == t && d == e
  {
    assert |s| == |t| && (s + [DigitChar(d)])[..|s|] == s && (t + [DigitChar(e)])[..|t|] == t;
    assert (s + [DigitChar(d)])[|s|] == (t + [DigitChar(e)])[|s|];
  }

  function Prefix(k: Kind): string {
    match k
    case Network => "network_stats_"
    case Link(Transmit) => "transmit_link_stats_"
    case Link(Receive) => "receive_link_stats_"
  }

  function Name(k: Kind, n: nat): string {
    Prefix(k) + Decimal(n)
  }

  function NameOf(x: Section): string {
    Name(KindOf(x), x.number)
  }

  /** A name tells kind and number. */
  lemma NameInjective(k: Kind, n: nat, k': Kind, n': nat)
    requires Name(k, n) == Name(k', n')
    ensures k == k' && n == n'
  {
    assert Name(k, n)[0] == Prefix(k)[0] && Name(k', n')[0] == Prefix(k')[0];
    assert Name(k, n)[|Prefix(k)|..] == Decimal(n) && Name(k', n')[|Prefix(k')|..] == Decimal(n');
    DecimalInjective(n, n');
  }

  /** No two sections have the same name. */
  ghost predicate DistinctNames(xs: seq<Section>) {
    forall i, j :: 0 <= i < j < |xs| ==> NameOf(xs[i]) != NameOf(xs[j])
  }

  ghost predicate FewEnough(xs: seq<Section>) {
    forall k :: Count(k, xs) <= 0x1_0000_0000_0000_0000
  }

  lemma CountsDiffer(xs: seq<Section>, i: nat, j: nat)
    requires i < j < |xs| && KindOf(xs[i]) == KindOf(xs[j])
    ensures Count(KindOf(xs[i]), xs[..i]) < Count(KindOf(xs[i]), xs[..j]) < Count(KindOf(xs[i]), xs)
  {
    assert xs[..j][..i] == xs[..i] && xs[..j][i] == xs[i];
    CountPrefix(KindOf(xs[i]), xs[..j], i);
    CountPrefix(KindOf(xs[i]), xs, j);
  }

  lemma WrapsDiffer(a: nat, b: nat)
    requires a < b < 0x1_0000_0000_0000_0000
    ensures ToSize(a) != ToSize(b)
  {
  }

  lemma NamesDiffer(xs: seq<Section>, i: nat, j: nat)
    requires Numbered(xs) && FewEnough(xs) && i < j < |xs|
    ensures NameOf(xs[i]) != NameOf(xs[j])
  {
    var k := KindOf(xs[i]);
    if NameOf(xs[i]) == NameOf(xs[j]) {
      NameInjective(k, xs[i].number, KindOf(xs[j]), xs[j].number);
      CountsDiffer(xs, i, j);
      WrapsDiffer(Count(k, xs[..i]), Count(k, xs[..j]));
      NumberAt(xs, i);
      NumberAt(xs, j);
    }
  }

  /** The names of numbered sections are distinct exactly as long as no kind has more sections than
      its counter can tell apart. */
  lemma NamesDistinctExactly(xs: seq<Section>)
    requires Numbered(xs)
    ensures DistinctNames(xs) <==> FewEnough(xs)
  {
    if FewEnough(xs) {
      forall i, j | 0 <= i < j < |xs| ensures NameOf(xs[i]) != NameOf(xs[j]) {
        NamesDiffer(xs, i, j);
      }
    } else {
      var k :| 0x1_0000_0000_0000_0000 < Count(k, xs);
      var i := NthOf(k, xs, 0);
      var j := NthOf(k, xs, 0x1_0000_0000_0000_0000);
      NumberAt(xs, i);
      NumberAt(xs, j);
      assert xs[i].number == xs[j].number == 0 && i != j;
      assert NameOf(xs[i]) == NameOf(xs[j]);
    }
  }
}
