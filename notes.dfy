/**
 * Notes and the listing rule of the notes screen: tag each note with its
 * array index, keep the ones matching the search query, and sort them
 * stably with pinned notes first and the most recently updated first.
 */
module Notes {
  import opened Text

  /** A saved note. Its identity is its position in the notes array. */
  datatype Note = Note(title: string, content: string, tags: string, pinned: bool, updatedAt: int)

  /** `{ ...note, index }`: a note together with its position in the array. */
  datatype Entry = Entry(note: Note, index: nat)

  // ---------------------------------------------------------------------
  // map((note, index) => ({ ...note, index }))
  // ---------------------------------------------------------------------

  predicate IncreasingIndex(s: seq<Entry>) {
    forall i, j :: 0 <= i < j < |s| ==> s[i].index < s[j].index
  }

  /** The notes tagged with their positions, in array order. */
  function Indexed(notes: seq<Note>): (r: seq<Entry>)
    ensures |r| == |notes|
    ensures forall i :: 0 <= i < |notes| ==> r[i] == Entry(notes[i], i)
    ensures forall e :: e in r <==> e.index < |notes| && e.note == notes[e.index]
    ensures IncreasingIndex(r)
  {
    var r := seq(|notes|, i requires 0 <= i < |notes| => Entry(notes[i], i));
    assert forall e :: e in r ==> e.index < |notes| && r[e.index] == e;
    r
  }

  // ---------------------------------------------------------------------
  // filter
  // ---------------------------------------------------------------------

  /**
   * The search rule: the lower-cased query is empty, or it occurs in the
   * lower-cased title, content (markup included) or tags.
   */
  predicate Matches(n: Note, query: string) {
    var q := Lower(query);
    q == [] || Contains(Lower(n.title), q) || Contains(Lower(n.content), q) || Contains(Lower(n.tags), q)
  }

  /** The search ignores ASCII case in the query: a lower-cased query finds the same notes. */
  lemma MatchesIgnoresQueryCase(n: Note, query: string)
    ensures Matches(n, query) == Matches(n, Lower(query))
  {
    LowerIdempotent(query);
  }

  /** `Array.prototype.filter` with `Matches`: keeps the matching entries in order. */
  function FilterMatching(es: seq<Entry>, query: string): (r: seq<Entry>)
    ensures forall e :: e in r <==> e in es && Matches(e.note, query)
    ensures |r| <= |es|
  {
    if es == [] then []
    else
      var rest := FilterMatching(es[1..], query);
      assert forall e :: e in es[1..] ==> e in es;
      if Matches(es[0].note, query) then [es[0]] + rest else rest
  }

  /** Filtering keeps the entries in their original order. */
  lemma {:induction false} FilterIncreasing(es: seq<Entry>, query: string)
    requires IncreasingIndex(es)
    ensures IncreasingIndex(FilterMatching(es, query))
  {
    if es != [] {
      var rest := FilterMatching(es[1..], query);
      assert IncreasingIndex(es[1..]);
      FilterIncreasing(es[1..], query);
      forall e | e in rest
        ensures es[0].index < e.index
      {
        var j :| 0 <= j < |es[1..]| && es[1..][j] == e;
        assert es[j + 1] == e;
      }
    }
  }

  /** With nothing typed in the search box every entry is kept. */
  lemma {:induction false} EmptyQueryKeepsAll(es: seq<Entry>)
    ensures FilterMatching(es, "") == es
  {
    if es != [] {
      EmptyQueryKeepsAll(es[1..]);
    }
  }

  // ---------------------------------------------------------------------
  // sort((a, b) => a.pinned !== b.pinned ? b.pinned - a.pinned : b.updatedAt - a.updatedAt)
  // ---------------------------------------------------------------------

  /** The comparator is negative for (a, b): `a` must come strictly before `b`. */
  predicate Precedes(a: Entry, b: Entry) {
    (a.note.pinned && !b.note.pinned)
    || (a.note.pinned == b.note.pinned && a.note.updatedAt > b.note.updatedAt)
  }

  /**
   * The order a stable sort produces from an input in index order: by the
   * comparator, and ties in original (index) order.
   */
  predicate Before(a: Entry, b: Entry) {
    Precedes(a, b)
    || (a.note.pinned == b.note.pinned && a.note.updatedAt == b.note.updatedAt && a.index < b.index)
  }

  predicate StrictlySorted(s: seq<Entry>) {
    forall i, j :: 0 <= i < j < |s| ==> Before(s[i], s[j])
  }

  /** `Before` is a strict order: irreflexive ... */
  lemma BeforeIrreflexive(a: Entry)
    ensures !Before(a, a)
  {
  }

  /** ... and transitive. */
  lemma BeforeTransitive(a: Entry, b: Entry, c: Entry)
    requires Before(a, b) && Before(b, c)
    ensures Before(a, c)
  {
  }

  /** Putting in front an entry that comes before all the others keeps a sequence sorted. */
  lemma ConsSorted(h: Entry, t: seq<Entry>)
    requires StrictlySorted(t)
    requires forall e :: e in t ==> Before(h, e)
    ensures StrictlySorted([h] + t)
  {
    forall i, j | 0 <= i < j < |t| + 1
      ensures Before(([h] + t)[i], ([h] + t)[j])
    {
      if i == 0 {
        assert ([h] + t)[j] == t[j - 1];
      } else {
        assert ([h] + t)[i] == t[i - 1] && ([h] + t)[j] == t[j - 1];
      }
    }
  }

  /** Places `x` in front of the first entry that does not strictly precede it. */
  function Insert(x: Entry, s: seq<Entry>): (r: seq<Entry>)
    ensures |r| == |s| + 1
    ensures multiset(r) == multiset(s) + multiset{x}
  {
    if s == [] then [x]
    else if Precedes(s[0], x) then
      assert s == [s[0]] + s[1..];
      [s[0]] + Insert(x, s[1..])
    else
      [x] + s
  }

  lemma InsertMembers(x: Entry, s: seq<Entry>)
    ensures forall e :: e in Insert(x, s) <==> e == x || e in s
  {
    assert forall e :: e in Insert(x, s) <==> e in multiset(Insert(x, s));
  }

  /**
   * Inserting an entry whose index is below every other index into a
   * sorted sequence keeps it sorted; this is where stability comes from.
   */
  lemma {:induction false} InsertSorted(x: Entry, s: seq<Entry>)
    requires StrictlySorted(s)
    requires forall e :: e in s ==> x.index < e.index
    ensures StrictlySorted(Insert(x, s))
  {
    if s == [] {
    } else if Precedes(s[0], x) {
      assert StrictlySorted(s[1..]);
      InsertSorted(x, s[1..]);
      InsertMembers(x, s[1..]);
      forall e | e in Insert(x, s[1..])
        ensures Before(s[0], e)
      {
        if e != x {
          var j :| 0 <= j < |s[1..]| && s[1..][j] == e;
          assert s[j + 1] == e;
        }
      }
      ConsSorted(s[0], Insert(x, s[1..]));
    } else {
      assert Before(x, s[0]);
      forall e | e in s
        ensures Before(x, e)
      {
        var j :| 0 <= j < |s| && s[j] == e;
        if j > 0 {
          BeforeTransitive(x, s[0], e);
        }
      }
      ConsSorted(x, s);
    }
  }

  /** A stable insertion sort by the comparator. */
  function SortEntries(s: seq<Entry>): (r: seq<Entry>)
    ensures |r| == |s|
    ensures multiset(r) == multiset(s)
  {
    if s == [] then []
    else
      assert s == [s[0]] + s[1..];
      Insert(s[0], SortEntries(s[1..]))
  }

  lemma SortMembers(s: seq<Entry>)
    ensures forall e :: e in SortEntries(s) <==> e in s
  {
    assert forall e :: e in SortEntries(s) <==> e in multiset(SortEntries(s));
  }

  /** Sorting entries given in index order yields the strict listing order. */
  lemma {:induction false} SortSorted(s: seq<Entry>)
    requires IncreasingIndex(s)
    ensures StrictlySorted(SortEntries(s))
  {
    if s != [] {
      assert IncreasingIndex(s[1..]);
      SortSorted(s[1..]);
      SortMembers(s[1..]);
      forall e | e in SortEntries(s[1..])
        ensures s[0].index < e.index
      {
        var j :| 0 <= j < |s[1..]| && s[1..][j] == e;
        assert s[j + 1] == e;
      }
      InsertSorted(s[0], SortEntries(s[1..]));
    }
  }

  // ---------------------------------------------------------------------
  // the listing
  // ---------------------------------------------------------------------

  /**
   * The notes shown for `query`: exactly the matching notes, each tagged
   * with its index, pinned before unpinned, then newest `updatedAt` first,
   * ties in array order.
   */
  function ListNotes(notes: seq<Note>, query: string): (r: seq<Entry>)
    ensures forall e :: e in r <==> e.index < |notes| && e.note == notes[e.index] && Matches(e.note, query)
    ensures forall i, j :: 0 <= i < j < |r| ==> r[i].note.pinned || !r[j].note.pinned
    ensures forall i, j :: 0 <= i < j < |r| && r[i].note.pinned == r[j].note.pinned ==>
      r[i].note.updatedAt >= r[j].note.updatedAt
    ensures forall i, j ::
      (0 <= i < j < |r| && r[i].note.pinned == r[j].note.pinned && r[i].note.updatedAt == r[j].note.updatedAt)
      ==> r[i].index < r[j].index
    ensures StrictlySorted(r)
  {
    var f := FilterMatching(Indexed(notes), query);
    FilterIncreasing(Indexed(notes), query);
    SortSorted(f);
    SortMembers(f);
    SortEntries(f)
  }

  /** The listing is a rearrangement of the filtered entries: nothing lost, nothing doubled. */
  lemma ListingIsPermutation(notes: seq<Note>, query: string)
    ensures multiset(ListNotes(notes, query)) == multiset(FilterMatching(Indexed(notes), query))
  {
  }

  /** An empty query lists every note. */
  lemma EmptyQueryListsAll(notes: seq<Note>)
    ensures multiset(ListNotes(notes, "")) == multiset(Indexed(notes))
    ensures |ListNotes(notes, "")| == |notes|
  {
    EmptyQueryKeepsAll(Indexed(notes));
  }

  /** In a sorted sequence the tail holds every entry except the head. */
  lemma TailMembers(s: seq<Entry>, e: Entry)
    requires StrictlySorted(s) && s != []
    ensures e in s[1..] <==> e in s && e != s[0]
  {
    if e in s[1..] {
      var i :| 0 <= i < |s[1..]| && s[1..][i] == e;
      assert Before(s[0], s[i + 1]);
    }
    if e in s && e != s[0] {
      var i :| 0 <= i < |s| && s[i] == e;
      assert s[1..][i - 1] == e;
    }
  }

  /** Two strictly sorted sequences with the same entries are the same sequence. */
  lemma {:induction false} SortedUnique(a: seq<Entry>, b: seq<Entry>)
    requires StrictlySorted(a) && StrictlySorted(b)
    requires forall e :: e in a <==> e in b
    ensures a == b
    decreases |a|
  {
    // neither can be empty without the other
    if a != [] { assert a[0] in b; }
    if b != [] { assert b[0] in a; }
    if a != [] && b != [] {
      var k :| 0 <= k < |b| && b[k] == a[0];
      var m :| 0 <= m < |a| && a[m] == b[0];
      assert a[0] == b[0];
      forall e
        ensures e in a[1..] <==> e in b[1..]
      {
        TailMembers(a, e);
        TailMembers(b, e);
      }
      assert StrictlySorted(a[1..]) && StrictlySorted(b[1..]);
      SortedUnique(a[1..], b[1..]);
      assert a == [a[0]] + a[1..] && b == [b[0]] + b[1..];
    }
  }

  /**
   * The listing rule fixes the listing: any sequence holding exactly the
   * matching notes, ordered pinned-first, then newest first, ties in array
   * order, is the listing.
   */
  lemma ListingDetermined(notes: seq<Note>, query: string, r: seq<Entry>)
    requires forall e :: e in r <==> e.index < |notes| && e.note == notes[e.index] && Matches(e.note, query)
    requires StrictlySorted(r)
    ensures r == ListNotes(notes, query)
  {
    SortedUnique(r, ListNotes(notes, query));
  }

  /** A pinned note is listed before an unpinned one, whatever their times. */
  lemma PinnedBeforeRecent()
    ensures var a := Note("a", "", "", true, 1);
            var b := Note("b", "", "", false, 100);
            ListNotes([a, b], "") == [Entry(a, 0), Entry(b, 1)]
  {
    var a := Note("a", "", "", true, 1);
    var b := Note("b", "", "", false, 100);
    ListingDetermined([a, b], "", [Entry(a, 0), Entry(b, 1)]);
  }

  /** A query found only in a note's tags still lists that note. */
  lemma TagOnlyMatch(notes: seq<Note>, query: string, k: nat)
    requires k < |notes| && Contains(Lower(notes[k].tags), Lower(query))
    ensures Entry(notes[k], k) in ListNotes(notes, query)
  {
  }

  // ---------------------------------------------------------------------
  // preview: content.replace(/<[^>]*>/g, "").slice(0, 80) + "..." when 80 remain
  // ---------------------------------------------------------------------

  /** No '<' in `s` is followed, anywhere later, by a '>': the pattern `<[^>]*>` has no match. */
  predicate NoTag(s: string) {
    forall i, j :: 0 <= i < j < |s| && s[i] == '<' ==> s[j] != '>'
  }

  /**
   * The global replacement of `<[^>]*>` by nothing: scanning from the left,
   * a '<' with a later '>' starts a match up to the first such '>'; a '<'
   * with no later '>' is kept.
   */
  function StripTags(s: string): (r: string)
    ensures |r| <= |s|
    ensures forall c :: c in r ==> c in s
    ensures NoTag(r)
    decreases |s|
  {
    if s == [] then []
    else if s[0] == '<' && IndexOfChar(s[1..], '>') < |s| - 1 then
      var r := StripTags(s[IndexOfChar(s[1..], '>') + 2..]);
      assert forall c :: c in s[IndexOfChar(s[1..], '>') + 2..] ==> c in s;
      r
    else
      var rest := StripTags(s[1..]);
      assert forall c :: c in s[1..] ==> c in s;
      assert s[0] == '<' ==> '>' !in s[1..];
      [s[0]] + rest
  }

  /** Text with no match of the pattern comes out unchanged. */
  lemma {:induction false} StripKeepsPlain(s: string)
    requires NoTag(s)
    ensures StripTags(s) == s
    decreases |s|
  {
    if s != [] {
      assert s[0] == '<' ==> '>' !in s[1..] by {
        assert forall j :: 0 <= j < |s| - 1 && s[0] == '<' ==> s[1..][j] != '>';
      }
      StripKeptHead(s);
      assert NoTag(s[1..]) by {
        forall i, j | 0 <= i < j < |s| - 1 && s[1..][i] == '<'
          ensures s[1..][j] != '>'
        {
          assert s[i + 1] == '<';
        }
      }
      StripKeepsPlain(s[1..]);
      assert s == [s[0]] + s[1..];
    }
  }

  /** Stripping twice is stripping once. */
  lemma StripIdempotent(s: string)
    ensures StripTags(StripTags(s)) == StripTags(s)
  {
    StripKeepsPlain(StripTags(s));
  }

  /** A first character that does not open a match is kept: it is not '<', or no '>' follows it. */
  lemma StripKeptHead(u: string)
    requires u != [] && (u[0] != '<' || '>' !in u[1..])
    ensures StripTags(u) == [u[0]] + StripTags(u[1..])
  {
    if u[0] == '<' {
      assert IndexOfChar(u[1..], '>') == |u| - 1;
    }
  }

  /** Text without a '<' is kept as it is, in front of whatever the rest becomes. */
  lemma {:induction false} StripKeepsPlainPrefix(p: string, s: string)
    requires '<' !in p
    ensures StripTags(p + s) == p + StripTags(s)
    decreases |p|
  {
    if p == [] {
      assert p + s == s && p + StripTags(s) == StripTags(s);
    } else {
      var u := p + s;
      assert u[0] == p[0] && u[1..] == p[1..] + s;
      assert p[0] != '<' && '<' !in p[1..];
      StripKeptHead(u);
      StripKeepsPlainPrefix(p[1..], s);
      assert [p[0]] + (p[1..] + StripTags(s)) == p + StripTags(s);
    }
  }

  /** A run `<...>` with no '>' inside is removed entirely. */
  lemma StripRemovesTag(t: string, s: string)
    requires '>' !in t
    ensures StripTags("<" + t + ">" + s) == StripTags(s)
  {
    var u := "<" + t + ">" + s;
    assert u[1..] == t + ">" + s;
    assert (t + ">" + s)[|t|] == '>';
    forall j | 0 <= j < |t|
      ensures (t + ">" + s)[j] != '>'
    {
      assert (t + ">" + s)[j] == t[j];
    }
    IndexOfCharAt(t + ">" + s, '>', |t|);
    assert u[|t| + 2..] == s;
  }

  /** A '<' with no '>' after it is kept as text. */
  lemma StripKeepsUnclosed(s: string)
    requires '>' !in s
    ensures StripTags("<" + s) == "<" + StripTags(s)
  {
    assert ("<" + s)[1..] == s;
    StripKeptHead("<" + s);
  }

  /** The tags of `a<b>c` go and the text around them stays. */
  lemma StripExample()
    ensures StripTags("a<b>c") == "ac"
  {
    StripRemovesTag("b", "c");
    StripKeepsPlainPrefix("c", "");
    StripKeepsPlainPrefix("a", "<b>c");
  }

  const PreviewLength: nat := 80

  /**
   * The card preview: the stripped text cut to 80 characters, followed by
   * "..." whenever 80 characters remain after the cut, which includes a
   * stripped text of exactly 80 characters.
   */
  function Preview(content: string): (r: string)
    ensures var p := StripTags(content);
      && (|p| < PreviewLength ==> r == p)
      && (|p| >= PreviewLength ==>
            |r| == PreviewLength + 3 && r[..PreviewLength] == p[..PreviewLength] && r[PreviewLength..] == "...")
  {
    var p := StripTags(content);
    var cut := if |p| <= PreviewLength then p else p[..PreviewLength];
    cut + (if |cut| == PreviewLength then "..." else "")
  }
}
