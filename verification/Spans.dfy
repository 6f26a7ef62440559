/** Spans over a printable text, the order they are kept in, and merging. */
module Spans {
  import opened Sorting

  datatype TagBlockId = Author | Returns | Since | Version | Param | Throws {
    function Rank(): nat {
      match this case Author => 0 case Returns => 1 case Since => 2 case Version => 3 case Param => 4 case Throws => 5
    }
  }

  /** What a span means.  A link shows the URI of its first definition, if it has any. */
  datatype Semantic =
    | TagBlock(id: TagBlockId, ordinal: nat)
    | Brief
    | CodeRef
    | Markup
    | Raw
    | Link(kind: nat, uri: seq<string>)
  {
    function Rank(): nat {
      match this
      case TagBlock(_, _) => 0
      case Brief => 1
      case CodeRef => 2
      case Markup => 3
      case Raw => 4
      case Link(_, _) => 5
    }

    /** `link_priority`; a span that is no link holds a default link of kind zero. */
    function Priority(): int { if Link? then -(kind as int) else 0 }
  }

  datatype Span = Span(begin: nat, end: nat, semantic: Semantic)

  predicate IsValid(s: Span) { s.begin < s.end }

  /** `operator<`: earlier first, then longer first, then by semantic and link priority.
      The tag block is compared with itself, so it never decides. */
  predicate SpanLess(a: Span, b: Span) {
    if a.begin != b.begin then a.begin < b.begin
    else if a.end != b.end then b.end < a.end
    else if a.semantic.Rank() != b.semantic.Rank() then a.semantic.Rank() < b.semantic.Rank()
    else a.semantic.Priority() < b.semantic.Priority()
  }

  lemma {:induction false} SpanLessIsWeak()
    ensures StrictWeak(SpanLess)
  {
  }

  /** Neither overlaps the other without containing it. */
  predicate Nested(a: Span, b: Span) {
    || a.end <= b.begin
    || b.end <= a.begin
    || (a.begin <= b.begin && b.end <= a.end)
    || (b.begin <= a.begin && a.end <= b.end)
  }

  ghost predicate Laminar(spans: seq<Span>) {
    forall i, j | 0 <= i < j < |spans| :: Nested(spans[i], spans[j])
  }

  ghost predicate Within(spans: seq<Span>, lo: nat, hi: nat) {
    forall i | 0 <= i < |spans| :: lo <= spans[i].begin <= spans[i].end <= hi
  }

  /** What the renderer asks of its spans. */
  ghost predicate Renderable(spans: seq<Span>, n: nat) {
    && (forall i | 0 <= i < |spans| :: spans[i].begin < spans[i].end <= n)
    && Laminar(spans)
    && SortedBy(SpanLess, spans)
  }

  function Filter(spans: seq<Span>): (r: seq<Span>)
    ensures forall s :: s in r <==> s in spans && IsValid(s)
  {
    if |spans| == 0 then []
    else
      assert forall s :: s in spans <==> s == spans[0] || s in spans[1..];
      (if IsValid(spans[0]) then [spans[0]] else []) + Filter(spans[1..])
  }

  lemma {:induction false} FilterKeepsLaminar(spans: seq<Span>)
    requires Laminar(spans)
    ensures Laminar(Filter(spans))
  {
    if |spans| > 0 {
      assert Laminar(spans[1..]) by {
        forall i, j | 0 <= i < j < |spans[1..]| ensures Nested(spans[1..][i], spans[1..][j]) {
          assert Nested(spans[i + 1], spans[j + 1]);
        }
      }
      FilterKeepsLaminar(spans[1..]);
      var rest := Filter(spans[1..]);
      forall j | 0 <= j < |rest| ensures Nested(spans[0], rest[j]) {
        assert rest[j] in spans[1..];
        var n :| 0 <= n < |spans[1..]| && spans[1..][n] == rest[j];
        assert Nested(spans[0], spans[n + 1]);
      }
    }
  }

  /** Nesting does not depend on the order of the spans. */
  lemma {:induction false} LaminarIsOrderFree(a: seq<Span>, b: seq<Span>)
    requires Laminar(a) && multiset(a) == multiset(b)
    ensures Laminar(b)
  {
    forall i, j | 0 <= i < j < |b| ensures Nested(b[i], b[j]) {
      if b[i] != b[j] {
        assert b[i] in multiset(a) && b[j] in multiset(a);
        var n :| 0 <= n < |a| && a[n] == b[i];
        var m :| 0 <= m < |a| && a[m] == b[j];
        if n < m { assert Nested(a[n], a[m]); } else { assert Nested(a[m], a[n]); }
      }
    }
  }

  /** How many blocks of a kind there are. */
  function Blocks(spans: seq<Span>, id: TagBlockId): nat {
    if |spans| == 0 then 0
    else
      var s := spans[|spans| - 1].semantic;
      Blocks(spans[..|spans| - 1], id) + if s.TagBlock? && s.id == id then 1 else 0
  }

  /** The blocks of each kind are numbered from 0 in the order they were added. */
  ghost predicate Numbered(spans: seq<Span>) {
    forall i | 0 <= i < |spans| && spans[i].semantic.TagBlock? ::
      spans[i].semantic.ordinal == Blocks(spans[..i], spans[i].semantic.id)
  }

  lemma {:induction false} BlocksGrow(spans: seq<Span>, i: nat, j: nat, id: TagBlockId)
    requires i <= j <= |spans|
    ensures Blocks(spans[..i], id) <= Blocks(spans[..j], id)
    ensures i < j && spans[i].semantic.TagBlock? && spans[i].semantic.id == id ==>
      Blocks(spans[..i], id) < Blocks(spans[..j], id)
    decreases j
  {
    if i < j {
      BlocksGrow(spans, i, j - 1, id);
      assert spans[..j][..j - 1] == spans[..j - 1];
    }
  }

  /** No two tag block spans share their key. */
  ghost predicate DistinctBlocks(spans: seq<Span>) {
    forall i, j | 0 <= i < j < |spans| && spans[i].semantic.TagBlock? && spans[j].semantic.TagBlock? ::
      spans[i].semantic != spans[j].semantic
  }

  lemma {:induction false} NumberedAreDistinct(spans: seq<Span>)
    requires Numbered(spans)
    ensures DistinctBlocks(spans)
  {
    forall i, j | 0 <= i < j < |spans| && spans[i].semantic.TagBlock? && spans[j].semantic.TagBlock?
      ensures spans[i].semantic != spans[j].semantic
    {
      BlocksGrow(spans, i, j, spans[i].semantic.id);
    }
  }

  lemma {:induction false} CountsAppend(spans: seq<Span>, s: Span)
    ensures forall id: TagBlockId ::
        Blocks(spans + [s], id) == Blocks(spans, id) + if s.semantic.TagBlock? && s.semantic.id == id then 1 else 0
  {
    assert (spans + [s])[..|spans|] == spans;
  }

  lemma {:induction false} NumberedAppend(spans: seq<Span>, s: Span)
    requires Numbered(spans) && (s.semantic.TagBlock? ==> s.semantic.ordinal == Blocks(spans, s.semantic.id))
    ensures Numbered(spans + [s])
  {
    var after := spans + [s];
    forall i | 0 <= i < |after| && after[i].semantic.TagBlock?
      ensures after[i].semantic.ordinal == Blocks(after[..i], after[i].semantic.id)
    {
      assert after[..i] == if i < |spans| then spans[..i] else spans;
    }
  }

  class PrintableSpans {
    var spans: seq<Span>
    var maxTagBlock: map<TagBlockId, nat>

    /** The counters have numbered the tag blocks. */
    ghost predicate Valid()
      reads this
    {
      Numbered(spans) && forall id: TagBlockId :: Next(id) == Blocks(spans, id)
    }

    function Next(id: TagBlockId): nat
      reads this
    {
      if id in maxTagBlock then maxTagBlock[id] else 0
    }

    constructor ()
      ensures Valid() && spans == []
    {
      spans, maxTagBlock := [], map[];
    }

    method Emplace(s: Span)
      requires Valid() && !s.semantic.TagBlock?
      modifies this`spans
      ensures Valid() && spans == old(spans) + [s]
    {
      NumberedAppend(spans, s);
      CountsAppend(spans, s);
      hide Blocks, Numbered;
      spans := spans + [s];
    }

    /** Takes the next number of the tag block and stores a span with it. */
    method EmplaceTagBlock(begin: nat, end: nat, id: TagBlockId)
      requires Valid()
      modifies this
      ensures Valid() && spans == old(spans) + [Span(begin, end, TagBlock(id, Blocks(old(spans), id)))]
    {
      var ordinal := Next(id);
      maxTagBlock := maxTagBlock[id := ordinal + 1];
      var s := Span(begin, end, TagBlock(id, ordinal));
      NumberedAppend(spans, s);
      CountsAppend(spans, s);
      hide Blocks, Numbered;
      spans := spans + [s];
    }

    /** Adds the spans of `o`, drops the empty ones and sorts: nested spans in range become
        what the renderer asks for. */
    method Merge(o: PrintableSpans, ghost n: nat)
      modifies this`spans
      ensures multiset(spans) == multiset(Filter(old(spans) + old(o.spans)))
      ensures forall s :: s in spans <==> (s in old(spans) || s in old(o.spans)) && IsValid(s)
      ensures SortedBy(SpanLess, spans)
      ensures Laminar(old(spans) + old(o.spans)) && Within(old(spans) + old(o.spans), 0, n) ==> Renderable(spans, n)
    {
      var all := spans + o.spans;
      assert forall s :: s in all <==> s in spans || s in o.spans;
      SpanLessIsWeak();
      var kept := Filter(all);
      SortSorts(SpanLess, kept);
      spans := Sort(SpanLess, kept);
      assert forall s :: s in spans <==> s in multiset(spans);
      assert forall s :: s in kept <==> s in multiset(kept);
      if Laminar(all) && Within(all, 0, n) {
        FilterKeepsLaminar(all);
        LaminarIsOrderFree(kept, spans);
        forall i | 0 <= i < |spans| ensures spans[i].begin < spans[i].end <= n {
          assert spans[i] in spans;
          var j :| 0 <= j < |all| && all[j] == spans[i];
        }
      }
    }
  }
}
