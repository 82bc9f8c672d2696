/**
 * `XamlColorizer`: the per-line highlight cache, the rendering-thread
 * operations that drive it and the line-tracker callbacks that invalidate it.
 */
module Colorizer {
  import opened Wrappers
  import opened Highlighting
  import opened Document
  import opened TokenScan
  import opened Styles
  import opened Tasks

  /** The cache as values: the state of each line's task. */
  type Entries = map<LineId, TaskState>

  /** Every completed entry holds the highlights of its snapshot. */
  ghost predicate AllConsistent(entries: Entries, rc: ContextResolver, rm: MemberResolver)
  {
    forall k | k in entries :: entries[k].Consistent(rc, rm)
  }

  /** `InvalidateLines` on the cache's values: set `Invalid` on the entries of the given lines. */
  function MarkedFrom(entries: Entries, lines: set<LineId>): Entries
  {
    map k | k in entries :: if k in lines then entries[k].(invalid := true) else entries[k]
  }

  /** One entry after `ColorizeInvalidated`: an invalid one is rebound to the snapshot, the others kept. */
  function RebindEntry(t: TaskState, snap: Snapshot): TaskState
  {
    if t.invalid then Rebound(t, snap) else t
  }

  /**
   * `ColorizeInvalidated` on the cache's values, for the current file and
   * document: no entry is dropped or added, none stays invalid, a valid one
   * is kept as it is, and an invalid one runs again on its line's current
   * text, not paintable until that run completes.
   */
  function Rebind(entries: Entries, doc: seq<DocumentLine>, fileContent: string, fileName: string): (r: Entries)
    requires entries.Keys <= Ids(doc)
    ensures r.Keys == entries.Keys
    ensures forall k | k in r :: !r[k].invalid
    ensures forall k | k in r && !entries[k].invalid :: r[k] == entries[k]
    ensures forall k | k in r && entries[k].invalid ::
      && r[k].snapshot == SnapshotOf(fileContent, fileName, LineOf(doc, k))
      && r[k].status == Running && !r[k].CompletedSuccessfully()
      && r[k].results == entries[k].results
  {
    map k | k in entries :: RebindEntry(entries[k], SnapshotOf(fileContent, fileName, LineOf(doc, k)))
  }

  /** Marking one more line is marking the larger set. */
  lemma MarkedFromTwice(entries: Entries, lines: set<LineId>, id: LineId)
    ensures MarkedFrom(MarkedFrom(entries, lines), {id}) == MarkedFrom(entries, lines + {id})
  {
  }

  /** `Rebind` applied to the entries of the lines in `lines` only. */
  function RebindOn(entries: Entries, lines: set<LineId>, doc: seq<DocumentLine>, fileContent: string, fileName: string): Entries
    requires entries.Keys <= Ids(doc)
  {
    map k | k in entries ::
      if k in lines then RebindEntry(entries[k], SnapshotOf(fileContent, fileName, LineOf(doc, k))) else entries[k]
  }

  lemma RebindNone(entries: Entries, doc: seq<DocumentLine>, fileContent: string, fileName: string)
    requires entries.Keys <= Ids(doc)
    ensures RebindOn(entries, {}, doc, fileContent, fileName) == entries
  {
  }

  lemma RebindOnStep(entries: Entries, lines: set<LineId>, id: LineId, doc: seq<DocumentLine>, fileContent: string, fileName: string)
    requires entries.Keys <= Ids(doc)
    requires id in entries && id !in lines
    ensures RebindOn(entries, lines, doc, fileContent, fileName)[id := RebindEntry(entries[id], SnapshotOf(fileContent, fileName, LineOf(doc, id)))]
         == RebindOn(entries, lines + {id}, doc, fileContent, fileName)
  {
  }

  lemma RebindAll(entries: Entries, doc: seq<DocumentLine>, fileContent: string, fileName: string)
    requires entries.Keys <= Ids(doc)
    ensures RebindOn(entries, entries.Keys, doc, fileContent, fileName) == Rebind(entries, doc, fileContent, fileName)
  {
  }

  /** The identities of the lines at positions `from` .. `to` - 1. */
  function IdsBetween(doc: seq<DocumentLine>, from: nat, to: nat): set<LineId>
    requires to <= |doc|
  {
    set j | from <= j < to :: doc[j].id
  }

  lemma IdsBetweenStep(doc: seq<DocumentLine>, from: nat, to: nat)
    requires from <= to < |doc|
    ensures IdsBetween(doc, from, to + 1) == IdsBetween(doc, from, to) + {doc[to].id}
  {
  }

  /**
   * An edit that invalidates from some line on, followed by the next
   * `ColorizeInvalidated`: every cached line from there on is rescanned from
   * its current text and is not painted with its old results meanwhile;
   * the lines before it are left as they were.
   */
  lemma {:induction false} InvalidatedLinesRescanned(entries: Entries, doc: seq<DocumentLine>, from: Option<nat>,
                                                     fileContent: string, fileName: string)
    requires entries.Keys <= Ids(doc)
    ensures MarkedFrom(entries, IdsFrom(doc, from)).Keys <= Ids(doc)
    ensures var r := Rebind(MarkedFrom(entries, IdsFrom(doc, from)), doc, fileContent, fileName);
      && r.Keys == entries.Keys
      && (forall k | k in r && k in IdsFrom(doc, from) ::
            r[k] == Rebound(entries[k], SnapshotOf(fileContent, fileName, LineOf(doc, k))))
      && (forall k | k in r && k !in IdsFrom(doc, from) ::
            r[k] == RebindEntry(entries[k], SnapshotOf(fileContent, fileName, LineOf(doc, k))))
  {
    var m := MarkedFrom(entries, IdsFrom(doc, from));
    assert m.Keys == entries.Keys;
    var r := Rebind(m, doc, fileContent, fileName);
    forall k | k in r && k in IdsFrom(doc, from)
      ensures r[k] == Rebound(entries[k], SnapshotOf(fileContent, fileName, LineOf(doc, k)))
    {
      assert m[k] == entries[k].(invalid := true);
    }
  }

  /**
   * The line tracker's removal keeps the cache inside the document: after
   * `BeforeRemoveLine` drops the removed line's entry (and marks the lines
   * after it), every key is the identity of a line still in the document.
   */
  lemma {:induction false} RemovalKeepsKeys(entries: Entries, doc: seq<DocumentLine>, i: nat)
    requires entries.Keys <= Ids(doc)
    requires i < |doc|
    ensures MarkedFrom(entries - {doc[i].id}, IdsFrom(doc, NextLine(doc, i))).Keys <= Ids(doc[..i] + doc[i + 1..])
  {
    var rest := doc[..i] + doc[i + 1..];
    forall k | k in entries && k != doc[i].id
      ensures k in Ids(rest)
    {
      var l :| l in doc && l.id == k;
      var j :| 0 <= j < |doc| && doc[j] == l;
      assert j != i;
      if j < i {
        assert rest[j] == l;
      } else {
        assert rest[j - 1] == l;
      }
    }
  }

  /**
   * A namespace declaration is never sent to the member resolver, and so is
   * painted in the namespace-declaration style unless its prefix is one of
   * the ignorable ones.
   */
  lemma XmlnsStyledAsNamespace(info: HighlightingInfo, fileContent: string, rm: MemberResolver)
    requires "xmlns" <= info.token
    ensures Resolved(info, fileContent, rm).member == None
    ensures Classify(info, Resolved(info, fileContent, rm).member) ==
      if IsIgnoredXmlns(info) then Some(Ignored) else Some(NamespaceDeclaration)
  {
  }

  class XamlColorizer {
    const resolveContext: ContextResolver
    const resolveMember: MemberResolver
    var fileContent: string
    var fileName: string
    var highlightCache: map<LineId, HighlightTask>

    /** No task object is shared by two lines. */
    ghost predicate Distinct()
      reads this
    {
      forall a, b | a in highlightCache && b in highlightCache && a != b :: highlightCache[a] != highlightCache[b]
    }

    /** Every task resolves with the colorizer's own resolvers. */
    ghost predicate SameResolvers()
      reads this
    {
      forall k | k in highlightCache ::
        highlightCache[k].resolveContext == resolveContext && highlightCache[k].resolveMember == resolveMember
    }

    ghost predicate Valid()
      reads this, highlightCache.Values
    {
      Distinct() && SameResolvers() && AllConsistent(Entries(), resolveContext, resolveMember)
    }

    ghost function Entries(): Entries
      reads this, highlightCache.Values
    {
      map k | k in highlightCache :: highlightCache[k].State()
    }

    constructor (rc: ContextResolver, rm: MemberResolver)
      ensures Valid() && highlightCache == map[]
      ensures resolveContext == rc && resolveMember == rm
    {
      resolveContext := rc;
      resolveMember := rm;
      fileContent := "";
      fileName := "";
      highlightCache := map[];
    }

    /** The start of a rendering pass: the text and name of the file that the tasks created in it will scan. */
    method Colorize(text: string, name: string)
      modifies this`fileContent, this`fileName
      ensures fileContent == text && fileName == name
    {
      fileContent := text;
      fileName := name;
    }

    /** One step of `InvalidateLines`: the line's entry, if cached, is marked invalid. */
    method MarkInvalid(id: LineId)
      requires Valid()
      modifies highlightCache.Values
      ensures Valid()
      ensures Entries() == MarkedFrom(old(Entries()), {id})
    {
      if id in highlightCache {
        var task := highlightCache[id];
        task.Invalid := true;
        forall k | k in highlightCache
          ensures Entries()[k] == MarkedFrom(old(Entries()), {id})[k]
        {
          if k != id {
            assert highlightCache[k] != task;
          }
        }
      }
    }

    /**
     * `InvalidateLines`: walk from `line` along `NextLine` to the end of the
     * document and set `Invalid` on every cached line met. A null line
     * changes nothing.
     */
    method InvalidateLines(doc: seq<DocumentLine>, line: Option<nat>)
      requires Valid()
      requires line.Some? ==> line.value < |doc|
      modifies highlightCache.Values
      ensures Valid()
      ensures Entries() == MarkedFrom(old(Entries()), IdsFrom(doc, line))
    {
      var current := line;
      ghost var marked: set<LineId> := {};
      while current.Some?
        invariant current.Some? ==> line.Some? && line.value <= current.value < |doc|
        invariant line.Some? ==> marked == IdsBetween(doc, line.value, if current.Some? then current.value else |doc|)
        invariant line.None? ==> marked == {}
        invariant Valid()
        invariant Entries() == MarkedFrom(old(Entries()), marked)
        decreases if current.Some? then |doc| - current.value else 0
      {
        var id := doc[current.value].id;
        MarkInvalid(id);
        MarkedFromTwice(old(Entries()), marked, id);
        IdsBetweenStep(doc, line.value, current.value);
        marked := marked + {id};
        current := NextLine(doc, current.value);
      }
      assert marked == IdsFrom(doc, line);
    }

    /** One step of `ColorizeInvalidated`: a cached line's entry, if invalid, is rebound to the line and restarted. */
    method RestartIfInvalid(doc: seq<DocumentLine>, id: LineId)
      requires Valid()
      requires id in highlightCache && id in Ids(doc)
      modifies highlightCache[id]
      ensures Valid()
      ensures Entries() == old(Entries())[id := RebindEntry(old(Entries())[id], SnapshotOf(fileContent, fileName, LineOf(doc, id)))]
    {
      var task := highlightCache[id];
      if task.Invalid {
        task.Invalidate(fileContent, fileName, LineOf(doc, id));
      }
      forall k | k in highlightCache
        ensures Entries()[k] == old(Entries())[id := task.State()][k]
      {
        if k != id {
          assert highlightCache[k] != task;
        }
      }
    }

    /**
     * `ColorizeInvalidated`: every entry whose `Invalid` is set is rebound
     * to its line's current state and the current file and restarted.
     */
    method ColorizeInvalidated(doc: seq<DocumentLine>)
      requires Valid()
      requires highlightCache.Keys <= Ids(doc)
      modifies highlightCache.Values
      ensures Valid()
      ensures Entries() == Rebind(old(Entries()), doc, fileContent, fileName)
    {
      var pending := highlightCache.Keys;
      ghost var done: set<LineId> := {};
      RebindNone(old(Entries()), doc, fileContent, fileName);
      while pending != {}
        invariant highlightCache == old(highlightCache)
        invariant pending <= old(highlightCache).Keys
        invariant done == old(highlightCache).Keys - pending
        invariant Valid()
        invariant Entries() == RebindOn(old(Entries()), done, doc, fileContent, fileName)
        decreases pending
      {
        var k :| k in pending;
        ghost var before := Entries();
        assert before[k] == old(Entries())[k];
        RestartIfInvalid(doc, k);
        RebindOnStep(old(Entries()), done, k, doc, fileContent, fileName);
        assert Entries() == RebindOn(old(Entries()), done + {k}, doc, fileContent, fileName);
        pending := pending - {k};
        done := done + {k};
      }
      RebindAll(old(Entries()), doc, fileContent, fileName);
    }

    /**
     * `ColorizeMember`: paint one highlight in the style `Classify` picks. A
     * span outside the line makes the painting throw; the exception is caught
     * and the line's cache entry removed.
     */
    method ColorizeMember(info: HighlightingInfo, line: DocumentLine, member: Option<Member>)
      returns (paint: Option<Paint>)
      modifies this`highlightCache
      ensures paint == PaintOf(Highlight(member, info), line)
      ensures highlightCache ==
        if OutOfRange(Highlight(member, info), line) then old(highlightCache) - {line.id} else old(highlightCache)
    {
      var style := Classify(info, member);
      paint := None;
      if style.Some? {
        if InLine(info, line) {
          paint := Some(Paint(line.offset + info.startOffset, line.offset + info.endOffset, style.value));
        } else {
          highlightCache := highlightCache - {line.id};
        }
      }
    }

    /**
     * The loop of `ColorizeLine` over a completed task's results: each is
     * painted in turn, and one that falls outside the line removes the
     * line's entry.
     */
    method ColorizeResults(results: seq<Highlight>, line: DocumentLine) returns (paints: seq<Paint>)
      modifies this`highlightCache
      ensures paints == PaintsOf(results, line)
      ensures highlightCache ==
        if AnyOutOfRange(results, line) then old(highlightCache) - {line.id} else old(highlightCache)
    {
      paints := [];
      for i := 0 to |results|
        invariant paints == PaintsOf(results[..i], line)
        invariant highlightCache ==
          if AnyOutOfRange(results[..i], line) then old(highlightCache) - {line.id} else old(highlightCache)
      {
        PaintsOfPrefix(results, i, line);
        var paint := ColorizeMember(results[i].info, line, results[i].member);
        paints := paints + AsSeq(paint);
      }
      assert results[..|results|] == results;
    }

    /** The first pass over a line without an entry: a new task for its current state, started. */
    method AddEntry(line: DocumentLine)
      requires Valid()
      requires line.id !in highlightCache
      modifies this`highlightCache
      ensures Valid()
      ensures line.id in highlightCache && highlightCache == old(highlightCache)[line.id := highlightCache[line.id]]
      ensures fresh(highlightCache[line.id])
      ensures Entries() == old(Entries())[line.id := NewTask(SnapshotOf(fileContent, fileName, line)).(status := Running)]
    {
      var task := new HighlightTask(fileContent, fileName, line, resolveContext, resolveMember);
      task.Start();
      ghost var before := highlightCache;
      highlightCache := highlightCache[line.id := task];
      ghost var e := old(Entries())[line.id := task.State()];
      assert Entries().Keys == e.Keys;
      forall k | k in e
        ensures Entries()[k] == e[k]
      {
        if k != line.id {
          assert highlightCache[k] == before[k];
        }
      }
      assert Entries() == e;
      assert AllConsistent(e, resolveContext, resolveMember);
      forall a, b | a in highlightCache && b in highlightCache && a != b
        ensures highlightCache[a] != highlightCache[b]
      {
        if a != line.id && b != line.id {
          assert highlightCache[a] == before[a] && highlightCache[b] == before[b];
        }
      }
    }

    /**
     * A pass over a cached line: painted with its task's results, in order,
     * only when the task completed successfully; a result outside the line
     * drops the entry.
     */
    method PaintEntry(line: DocumentLine) returns (paints: seq<Paint>)
      requires Valid()
      requires line.id in highlightCache
      modifies this`highlightCache
      ensures Valid()
      ensures highlightCache.Values <= old(highlightCache.Values)
      ensures highlightCache.Keys <= old(highlightCache.Keys)
      ensures var t := old(Entries())[line.id];
        && paints == (if t.CompletedSuccessfully() then PaintsOf(t.results.value, line) else [])
        && Entries() == if t.CompletedSuccessfully() && AnyOutOfRange(t.results.value, line)
                        then old(Entries()) - {line.id} else old(Entries())
    {
      paints := [];
      ghost var e0 := Entries();
      var task := highlightCache[line.id];
      ghost var t := task.State();
      assert t == e0[line.id];
      ghost var dropped := t.CompletedSuccessfully() && AnyOutOfRange(t.results.value, line);
      if task.CompletedSuccessfully() {
        assert t.Consistent(resolveContext, resolveMember);
        paints := ColorizeResults(task.GetResults().value, line);
      }
      assert highlightCache == if dropped then old(highlightCache) - {line.id} else old(highlightCache);
      ghost var e1 := if dropped then e0 - {line.id} else e0;
      assert Entries().Keys == e1.Keys;
      forall k | k in e1
        ensures Entries()[k] == e1[k]
      {
      }
      assert Entries() == e1;
      assert AllConsistent(e1, resolveContext, resolveMember);
    }

    /**
     * `ColorizeLine`: a line without an entry gets a new task for its
     * current state, started, and is not painted; a cached line is painted
     * with its results, in order, only when its task completed successfully.
     * Either way the invalid entries are then restarted.
     */
    method ColorizeLine(doc: seq<DocumentLine>, line: DocumentLine) returns (paints: seq<Paint>)
      requires Valid()
      requires line in doc
      requires highlightCache.Keys <= Ids(doc)
      modifies this`highlightCache, highlightCache.Values
      ensures Valid()
      ensures highlightCache.Keys <= Ids(doc)
      ensures line.id !in old(highlightCache) ==>
        && paints == []
        && Entries() == Rebind(old(Entries())[line.id := NewTask(SnapshotOf(fileContent, fileName, line)).(status := Running)],
                               doc, fileContent, fileName)
      ensures line.id in old(highlightCache) ==>
        var t := old(Entries())[line.id];
        && paints == (if t.CompletedSuccessfully() then PaintsOf(t.results.value, line) else [])
        && (t.CompletedSuccessfully() ==>
              && Highlights(t.snapshot, resolveContext, resolveMember).Success?
              && paints == PaintsOf(Highlights(t.snapshot, resolveContext, resolveMember).value, line))
        && Entries() == Rebind(if t.CompletedSuccessfully() && AnyOutOfRange(t.results.value, line)
                               then old(Entries()) - {line.id} else old(Entries()),
                               doc, fileContent, fileName)
    {
      if line.id !in highlightCache {
        AddEntry(line);
        paints := [];
      } else {
        paints := PaintEntry(line);
      }
      ColorizeInvalidated(doc);
    }

    /**
     * The worker thread finishes the running task of a cached line: the
     * thread pool's execution of `Process`, as one atomic step.
     */
    method CompleteTask(id: LineId)
      requires Valid()
      requires id in highlightCache && highlightCache[id].status == Running
      modifies highlightCache[id]
      ensures Valid()
      ensures Entries() == old(Entries())[id := Finished(old(Entries())[id],
                                                         Highlights(old(Entries())[id].snapshot, resolveContext, resolveMember))]
    {
      var task := highlightCache[id];
      task.Process();
      assert Entries() == old(Entries())[id := task.State()] by {
        forall k | k in highlightCache
          ensures Entries()[k] == old(Entries())[id := task.State()][k]
        {
        }
      }
    }

    /** `BeforeRemoveLine`: drop the line's entry and mark every following line invalid. */
    method BeforeRemoveLine(doc: seq<DocumentLine>, line: nat)
      requires Valid()
      requires line < |doc|
      modifies this`highlightCache, highlightCache.Values
      ensures Valid()
      ensures Entries() == MarkedFrom(old(Entries()) - {doc[line].id}, IdsFrom(doc, NextLine(doc, line)))
    {
      highlightCache := highlightCache - {doc[line].id};
      assert Entries() == old(Entries()) - {doc[line].id};
      InvalidateLines(doc, NextLine(doc, line));
    }

    /** `SetLineLength`: like a removal, the line's entry goes and every following line is marked invalid. */
    method SetLineLength(doc: seq<DocumentLine>, line: nat, newTotalLength: int)
      requires Valid()
      requires line < |doc|
      modifies this`highlightCache, highlightCache.Values
      ensures Valid()
      ensures Entries() == MarkedFrom(old(Entries()) - {doc[line].id}, IdsFrom(doc, NextLine(doc, line)))
    {
      highlightCache := highlightCache - {doc[line].id};
      assert Entries() == old(Entries()) - {doc[line].id};
      InvalidateLines(doc, NextLine(doc, line));
    }

    /** `LineInserted`: the cache is left as it is; a new line gets its entry when first painted. */
    method LineInserted(insertionPos: DocumentLine, newLine: DocumentLine)
      ensures Entries() == old(Entries())
    {
    }

    /** `RebuildDocument`: every entry is dropped. */
    method RebuildDocument()
      modifies this`highlightCache
      ensures Valid() && Entries() == map[]
    {
      highlightCache := map[];
    }
  }
}
