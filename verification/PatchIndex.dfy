/** The message-id index: for each message-id, the patched files it is an article of. */
module PatchIndex {
  import opened Wrappers
  import opened Articles
  import opened PatchModel

  /** A range of a live file that carries some message-id. */
  datatype ArticleRef = ArticleRef(release: ReleaseId, file: string, offset: nat, len: nat)

  type Index = map<string, seq<ArticleRef>>

  function RefsOf(index: Index, m: string): seq<ArticleRef> {
    if m in index then index[m] else []
  }

  /** The first article of a layout with a message-id. */
  function FirstOf(articles: seq<ArticleSpan>, m: string): (r: Option<ArticleSpan>)
    ensures r.Some? ==> r.value in articles && r.value.messageId == m
    ensures r.None? ==> forall a :: a in articles ==> a.messageId != m
  {
    if articles == [] then None
    else if articles[0].messageId == m then Some(articles[0])
    else FirstOf(articles[1..], m)
  }

  predicate HasFile(rels: Releases, id: ReleaseId, file: string) {
    id in rels && file in rels[id].files
  }

  /** What a reference stands for: its file is live and this is where the file's layout has
      the message-id. */
  ghost predicate IsRef(rels: Releases, m: string, ref: ArticleRef) {
    && HasFile(rels, ref.release, ref.file)
    && var a := FirstOf(rels[ref.release].files[ref.file].articles, m);
       a.Some? && a.value.offset == ref.offset && a.value.len == ref.len
  }

  /** The index has the references of the live files and no others, each once, and no
      message-id without one. */
  ghost predicate Exact(index: Index, rels: Releases) {
    && (forall m, ref :: ref in RefsOf(index, m) <==> IsRef(rels, m, ref))
    && (forall m :: m in index ==> index[m] != [] && NoRepeat(index[m]))
  }

  ghost predicate NoRepeat(refs: seq<ArticleRef>) {
    forall i, j :: 0 <= i < j < |refs| ==> refs[i] != refs[j]
  }

  predicate Names(refs: seq<ArticleRef>, release: ReleaseId, file: string) {
    exists i :: 0 <= i < |refs| && refs[i].release == release && refs[i].file == file
  }

  function AddRef(index: Index, release: ReleaseId, file: string, a: ArticleSpan): Index {
    var refs := RefsOf(index, a.messageId);
    index[a.messageId :=
      if Names(refs, release, file) then refs
      else refs + [ArticleRef(release, file, a.offset, a.len)]]
  }

  function IndexFile(index: Index, release: ReleaseId, file: string, articles: seq<ArticleSpan>): Index
    decreases |articles|
  {
    if articles == [] then index
    else IndexFile(AddRef(index, release, file, articles[0]), release, file, articles[1..])
  }

  /** Indexing a file appends one reference per message-id that has none for it yet: the
      file's first article with that message-id. */
  lemma {:induction false} IndexFileRefs(
      index: Index, release: ReleaseId, file: string, articles: seq<ArticleSpan>, m: string)
    ensures
      var a, refs := FirstOf(articles, m), RefsOf(index, m);
      && RefsOf(IndexFile(index, release, file, articles), m) ==
           (if a.None? || Names(refs, release, file) then refs
            else refs + [ArticleRef(release, file, a.value.offset, a.value.len)])
      && (m in IndexFile(index, release, file, articles) <==> m in index || a.Some?)
    decreases |articles|
  {
    if articles != [] {
      var more := AddRef(index, release, file, articles[0]);
      IndexFileRefs(more, release, file, articles[1..], m);
      if articles[0].messageId == m && !Names(RefsOf(index, m), release, file) {
        var refs := RefsOf(more, m);
        assert refs[|refs| - 1].release == release;
        assert Names(refs, release, file);
      }
    }
  }

  /** The same files with the same layouts. */
  ghost predicate SameLayouts(a: Releases, b: Releases) {
    forall id, file ::
      && HasFile(a, id, file) == HasFile(b, id, file)
      && (HasFile(a, id, file) ==> a[id].files[file].articles == b[id].files[file].articles)
  }

  lemma SameLayoutsExact(index: Index, a: Releases, b: Releases)
    requires Exact(index, a) && SameLayouts(a, b)
    ensures Exact(index, b)
  {
    forall m, ref ensures ref in RefsOf(index, m) <==> IsRef(b, m, ref) {
      assert HasFile(a, ref.release, ref.file) == HasFile(b, ref.release, ref.file);
      assert IsRef(a, m, ref) <==> IsRef(b, m, ref);
    }
  }

  /** `b` has one file more than `a`. */
  ghost predicate OneMoreFile(a: Releases, b: Releases, id: ReleaseId, file: string) {
    && !HasFile(a, id, file) && HasFile(b, id, file)
    && forall i, f :: (i, f) != (id, file) ==>
         && HasFile(a, i, f) == HasFile(b, i, f)
         && (HasFile(a, i, f) ==> a[i].files[f].articles == b[i].files[f].articles)
  }

  lemma IndexFileExact(index: Index, a: Releases, b: Releases, id: ReleaseId, file: string)
    requires Exact(index, a) && OneMoreFile(a, b, id, file)
    ensures Exact(IndexFile(index, id, file, b[id].files[file].articles), b)
  {
    var articles := b[id].files[file].articles;
    var more := IndexFile(index, id, file, articles);
    forall m, i | 0 <= i < |RefsOf(index, m)|
      ensures RefsOf(index, m)[i].release != id || RefsOf(index, m)[i].file != file
    {
      assert IsRef(a, m, RefsOf(index, m)[i]);
    }
    forall m, ref ensures ref in RefsOf(more, m) <==> IsRef(b, m, ref) {
      IndexFileRefs(index, id, file, articles, m);
      assert ref in RefsOf(index, m) <==> IsRef(a, m, ref);
      if (ref.release, ref.file) == (id, file) {
        assert ref !in RefsOf(index, m);
      } else {
        assert HasFile(a, ref.release, ref.file) == HasFile(b, ref.release, ref.file);
      }
    }
    forall m | m in more ensures more[m] != [] && NoRepeat(more[m]) {
      IndexFileRefs(index, id, file, articles, m);
      forall i, j | 0 <= i < j < |more[m]| ensures more[m][i] != more[m][j] {
        if j == |RefsOf(index, m)| {
          assert IsRef(a, m, RefsOf(index, m)[i]);
        }
      }
    }
  }

  /** The references to other releases, in order. */
  function Others(refs: seq<ArticleRef>, id: ReleaseId): (r: seq<ArticleRef>)
    ensures forall ref :: ref in r <==> ref in refs && ref.release != id
    ensures |r| <= |refs|
  {
    if refs == [] then []
    else if refs[0].release == id then Others(refs[1..], id)
    else [refs[0]] + Others(refs[1..], id)
  }

  lemma {:induction false} OthersKeepsNoRepeat(refs: seq<ArticleRef>, id: ReleaseId)
    requires NoRepeat(refs)
    ensures NoRepeat(Others(refs, id))
  {
    hide NoRepeat;
    if refs == [] {
      NothingRepeats();
    } else {
      NoRepeatParts(refs);
      OthersKeepsNoRepeat(refs[1..], id);
      assert refs[0] !in Others(refs[1..], id);
      NoRepeatMore(refs[0], Others(refs[1..], id));
      assert [] + Others(refs[1..], id) == Others(refs[1..], id);
    }
  }

  lemma NothingRepeats()
    ensures NoRepeat([])
  {
  }

  lemma NoRepeatParts(refs: seq<ArticleRef>)
    requires NoRepeat(refs) && refs != []
    ensures NoRepeat(refs[1..]) && refs[0] !in refs[1..]
  {
    assert forall i :: 0 <= i < |refs[1..]| ==> refs[1..][i] == refs[i + 1];
  }

  lemma NoRepeatMore(first: ArticleRef, refs: seq<ArticleRef>)
    requires NoRepeat(refs) && first !in refs
    ensures NoRepeat([first] + refs)
  {
  }

  lemma {:induction false} OthersIsAll(refs: seq<ArticleRef>, id: ReleaseId)
    requires forall ref :: ref in refs ==> ref.release != id
    ensures Others(refs, id) == refs
  {
    if refs != [] {
      OthersIsAll(refs[1..], id);
    }
  }

  lemma OthersTwice(refs: seq<ArticleRef>, id: ReleaseId)
    ensures Others(Others(refs, id), id) == Others(refs, id)
  {
    OthersIsAll(Others(refs, id), id);
  }

  /** The index with a release's references gone from the message-ids in `done`. */
  function Without(index: Index, done: set<string>, id: ReleaseId): Index {
    map m | m in index && (m in done ==> Others(index[m], id) != []) ::
      if m in done then Others(index[m], id) else index[m]
  }

  /** What removing a release's references from one message-id does to the index. */
  function Forget(index: Index, m: string, id: ReleaseId): Index {
    if m !in index then index
    else if Others(index[m], id) == [] then index - {m}
    else index[m := Others(index[m], id)]
  }

  lemma ForgetMore(index: Index, done: set<string>, m: string, id: ReleaseId)
    ensures Forget(Without(index, done, id), m, id) == Without(index, done + {m}, id)
  {
    if m in index {
      OthersTwice(index[m], id);
    }
  }

  /** Forgetting a release at all its message-ids takes its references out and no others. */
  lemma WithoutExact(index: Index, rels: Releases, done: set<string>, id: ReleaseId)
    requires Exact(index, rels) && id in rels
    requires forall n, a :: n in rels[id].files && a in rels[id].files[n].articles ==> a.messageId in done
    ensures Exact(Without(index, done, id), rels - {id})
  {
    var less := Without(index, done, id);
    forall m ensures RefsOf(less, m) == Others(RefsOf(index, m), id) {
      if m in index && m !in done {
        forall ref | ref in index[m] ensures ref.release != id {
          assert ref in RefsOf(index, m);
          assert IsRef(rels, m, ref);
        }
        OthersIsAll(index[m], id);
      }
    }
    forall m, ref ensures ref in RefsOf(less, m) <==> IsRef(rels - {id}, m, ref) {
      assert ref in RefsOf(index, m) <==> IsRef(rels, m, ref);
    }
    forall m | m in less ensures less[m] != [] && NoRepeat(less[m]) {
      OthersKeepsNoRepeat(index[m], id);
    }
  }
}
