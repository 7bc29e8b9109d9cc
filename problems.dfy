/**
 * The `problems` table of src/database.py: the difficulty/tag filter, loading
 * a list of problems with INSERT OR IGNORE, and the tag counts.
 */
module Problems {
  import opened Wrappers
  import opened Text

  /** One row of `problems`; the tags are the decoded list (stored as JSON text). */
  datatype Problem = Problem(id: string, title: string, description: string, difficulty: string, tags: seq<string>)

  /** The difficulties the table's CHECK constraint and the command line admit. */
  predicate IsDifficulty(d: string)
  {
    d == "easy" || d == "medium" || d == "hard"
  }

  // ---------------------------------------------------------------------------
  // Filtering

  /** One WHERE condition: `difficulty = ?` or `tags LIKE '%"tag"%'` (read as list membership). */
  datatype Clause = DifficultyIs(difficulty: string) | HasTag(tag: string)

  predicate Holds(c: Clause, p: Problem)
  {
    match c
    case DifficultyIs(d) => p.difficulty == d
    case HasTag(t) => t in p.tags
  }

  /** The WHERE clause: its conditions joined by AND (no condition selects every row). */
  predicate SatisfiesAll(clauses: seq<Clause>, p: Problem)
  {
    forall i :: 0 <= i < |clauses| ==> Holds(clauses[i], p)
  }

  /** What a filter means: the difficulty if one is given, and every tag asked for. */
  predicate Matches(p: Problem, difficulty: Option<string>, tags: Option<seq<string>>)
  {
    && (difficulty.Some? && difficulty.value != "" ==> p.difficulty == difficulty.value)
    && (tags.Some? ==> forall t :: t in tags.value ==> t in p.tags)
  }

  /** Appends a difficulty condition when a non-empty difficulty is given, then one condition per tag. */
  method BuildFilterClause(difficulty: Option<string>, tags: Option<seq<string>>) returns (clauses: seq<Clause>)
    ensures forall p :: SatisfiesAll(clauses, p) <==> Matches(p, difficulty, tags)
    ensures |clauses| == (if difficulty.Some? && difficulty.value != "" then 1 else 0)
                       + (if tags.Some? then |tags.value| else 0)
  {
    clauses := [];
    if difficulty.Some? && difficulty.value != "" {
      clauses := clauses + [DifficultyIs(difficulty.value)];
    }
    ghost var base := clauses;
    if tags.Some? && tags.value != [] {
      var i := 0;
      while i < |tags.value|
        invariant 0 <= i <= |tags.value|
        invariant clauses == base + seq(i, j requires 0 <= j < i => HasTag(tags.value[j]))
      {
        clauses := clauses + [HasTag(tags.value[i])];
        i := i + 1;
      }
    }
    assert tags.None? || tags.value == [] ==> clauses == base;
    forall p ensures SatisfiesAll(clauses, p) <==> Matches(p, difficulty, tags) {
      if SatisfiesAll(clauses, p) {
        if difficulty.Some? && difficulty.value != "" {
          assert Holds(clauses[0], p);
        }
        if tags.Some? {
          forall t | t in tags.value ensures t in p.tags {
            var j :| 0 <= j < |tags.value| && tags.value[j] == t;
            assert Holds(clauses[|base| + j], p);
          }
        }
      }
      if Matches(p, difficulty, tags) {
        forall k | 0 <= k < |clauses| ensures Holds(clauses[k], p) {
          if k >= |base| {
            assert clauses[k] == HasTag(tags.value[k - |base|]);
          }
        }
      }
    }
  }

  /** Each condition narrows the selection: both tags asked for must be present. */
  lemma TagsAreAnded(p: Problem, a: string, b: string)
    ensures Matches(p, None, Some([a, b])) <==> a in p.tags && b in p.tags
  {
  }

  // ---------------------------------------------------------------------------
  // Loading with INSERT OR IGNORE

  /**
   * Inserting one problem: the row is skipped (IGNORE) when its id is already
   * present or its difficulty breaks the CHECK constraint.
   */
  function InsertOrIgnore(rows: map<string, Problem>, p: Problem): (r: map<string, Problem>)
    ensures r.Keys == rows.Keys + (if p.id !in rows && IsDifficulty(p.difficulty) then {p.id} else {})
    ensures forall k :: k in rows ==> r[k] == rows[k]
    ensures p.id in r && p.id !in rows ==> r[p.id] == p
  {
    if p.id !in rows && IsDifficulty(p.difficulty) then rows[p.id := p] else rows
  }

  /** The ids among `ps` that the CHECK constraint admits. */
  function AdmittedIds(ps: seq<Problem>): set<string>
  {
    set i | 0 <= i < |ps| && IsDifficulty(ps[i].difficulty) :: ps[i].id
  }

  /** The table after inserting `ps` in order. */
  function LoadAll(rows: map<string, Problem>, ps: seq<Problem>): (r: map<string, Problem>)
    ensures r.Keys == rows.Keys + AdmittedIds(ps)
    ensures forall k :: k in rows ==> r[k] == rows[k]
    decreases |ps|
  {
    if ps == [] then rows
    else
      var init := ps[..|ps| - 1];
      var last := ps[|ps| - 1];
      assert AdmittedIds(ps) == AdmittedIds(init) + (if IsDifficulty(last.difficulty) then {last.id} else {}) by {
        assert forall i :: 0 <= i < |init| ==> init[i] == ps[i];
      }
      InsertOrIgnore(LoadAll(rows, init), last)
  }

  /** Loading the same problems again changes nothing. */
  lemma LoadTwiceIsIdempotent(rows: map<string, Problem>, ps: seq<Problem>)
    ensures LoadAll(LoadAll(rows, ps), ps) == LoadAll(rows, ps)
  {
    var once := LoadAll(rows, ps);
    var twice := LoadAll(once, ps);
    assert twice.Keys == once.Keys;
  }

  /** A new row is the first admitted problem in the list with its id. */
  lemma {:induction false} FirstOccurrenceWins(rows: map<string, Problem>, ps: seq<Problem>, i: nat)
    requires i < |ps| && IsDifficulty(ps[i].difficulty) && ps[i].id !in rows
    requires forall j :: 0 <= j < i ==> ps[j].id == ps[i].id ==> !IsDifficulty(ps[j].difficulty)
    ensures LoadAll(rows, ps)[ps[i].id] == ps[i]
    decreases |ps|
  {
    var init := ps[..|ps| - 1];
    if i < |ps| - 1 {
      assert init[i] == ps[i];
      FirstOccurrenceWins(rows, init, i);
    } else {
      assert forall j :: 0 <= j < |init| ==> init[j] == ps[j];
      assert ps[i].id !in AdmittedIds(init);
    }
  }

  /** Loading one more problem is one more INSERT OR IGNORE. */
  lemma LoadStep(rows: map<string, Problem>, ps: seq<Problem>, i: nat)
    requires i < |ps|
    ensures LoadAll(rows, ps[..i + 1]) == InsertOrIgnore(LoadAll(rows, ps[..i]), ps[i])
  {
    assert ps[..i + 1][..i] == ps[..i];
  }

  /** An insert adds one row exactly when it is not ignored. */
  lemma InsertCard(rows: map<string, Problem>, p: Problem)
    ensures |InsertOrIgnore(rows, p)| == |rows| + (if p.id !in rows && IsDifficulty(p.difficulty) then 1 else 0)
  {
    if p.id !in rows && IsDifficulty(p.difficulty) {
      assert rows[p.id := p].Keys == rows.Keys + {p.id};
    }
  }

  class ProblemTable {
    var rows: map<string, Problem>

    /** An empty `problems` table. */
    constructor ()
      ensures rows == map[]
    {
      rows := map[];
    }

    /** One INSERT OR IGNORE: the row count is 1 when the row was added and 0 when it was ignored. */
    method Insert(p: Problem) returns (rowcount: nat)
      modifies this
      ensures rows == InsertOrIgnore(old(rows), p)
      ensures |rows| == |old(rows)| + rowcount
    {
      InsertCard(rows, p);
      if p.id !in rows && IsDifficulty(p.difficulty) {
        rows := rows[p.id := p];
        rowcount := 1;
      } else {
        rowcount := 0;
      }
    }

    /** Inserts each problem with INSERT OR IGNORE and returns how many rows were added. */
    method LoadProblems(ps: seq<Problem>) returns (count: nat)
      modifies this
      ensures rows == LoadAll(old(rows), ps)
      ensures count == |rows| - |old(rows)|
      ensures count == |AdmittedIds(ps) - old(rows).Keys|
    {
      ghost var start := rows;
      count := 0;
      var i := 0;
      while i < |ps|
        invariant 0 <= i <= |ps|
        invariant rows == LoadAll(start, ps[..i])
        invariant count == |rows| - |start|
      {
        LoadStep(start, ps, i);
        var added := Insert(ps[i]);
        count := count + added;
        i := i + 1;
      }
      assert ps[..i] == ps;
      NewRowsCard(start, rows, AdmittedIds(ps));
    }
  }

  lemma NewRowsCard(before: map<string, Problem>, after: map<string, Problem>, added: set<string>)
    requires after.Keys == before.Keys + added
    ensures |after| - |before| == |added - before.Keys|
  {
    assert after.Keys == before.Keys + (added - before.Keys);
    assert before.Keys !! (added - before.Keys);
  }

  /** Loading a list into an empty table and then loading it again: the second load adds nothing. */
  method ReloadAddsNothing(ps: seq<Problem>) returns (first: nat, second: nat)
    ensures first == |AdmittedIds(ps)|
    ensures second == 0
  {
    var table := new ProblemTable();
    first := table.LoadProblems(ps);
    second := table.LoadProblems(ps);
    LoadTwiceIsIdempotent(map[], ps);
  }

  // ---------------------------------------------------------------------------
  // Tag counts

  /** How often `tag` occurs in one tag list. */
  function Occurrences(tags: seq<string>, tag: string): nat
  {
    if tags == [] then 0
    else Occurrences(tags[..|tags| - 1], tag) + (if tags[|tags| - 1] == tag then 1 else 0)
  }

  /** How often `tag` occurs over the tag lists of all rows. */
  function TagTotal(rows: seq<seq<string>>, tag: string): nat
  {
    if rows == [] then 0
    else TagTotal(rows[..|rows| - 1], tag) + Occurrences(rows[|rows| - 1], tag)
  }

  /** A tag with its count. */
  datatype TagCount = TagCount(tag: string, count: nat)

  /** The listing order: higher count first, then tag name ascending. */
  predicate Before(a: TagCount, b: TagCount)
  {
    a.count > b.count || (a.count == b.count && StrLt(a.tag, b.tag))
  }

  lemma BeforeTransitive(a: TagCount, b: TagCount, c: TagCount)
    requires Before(a, b) && Before(b, c)
    ensures Before(a, c)
  {
    if a.count == b.count && b.count == c.count {
      StrLtTransitive(a.tag, b.tag, c.tag);
    }
  }

  /** The entries of `r` are in strict listing order. */
  predicate Ranked(r: seq<TagCount>)
  {
    forall i, j :: 0 <= i < j < |r| ==> Before(r[i], r[j])
  }

  /** No tag is listed twice. */
  predicate DistinctTags(r: seq<TagCount>)
  {
    forall i, j :: 0 <= i < j < |r| ==> r[i].tag != r[j].tag
  }

  /** The tags in `r`. */
  function Tags(r: seq<TagCount>): set<string>
  {
    set e | e in r :: e.tag
  }

  /** Inserts `x` at its place in the listing order: before the first entry it comes before. */
  function InsertRanked(x: TagCount, r: seq<TagCount>): (r': seq<TagCount>)
    ensures forall e :: e in r' <==> e == x || e in r
    ensures multiset(r') == multiset(r) + multiset{x}
  {
    if r == [] then [x]
    else if Before(x, r[0]) then [x] + r
    else
      assert r == [r[0]] + r[1..];
      [r[0]] + InsertRanked(x, r[1..])
  }

  /** Inserting a tag that is not yet listed keeps the listing strictly ordered and free of repeats. */
  lemma {:induction false} InsertRankedKeepsListing(x: TagCount, r: seq<TagCount>)
    requires Ranked(r) && DistinctTags(r)
    requires x.tag !in Tags(r)
    ensures Ranked(InsertRanked(x, r)) && DistinctTags(InsertRanked(x, r))
    ensures Tags(InsertRanked(x, r)) == Tags(r) + {x.tag}
  {
    InsertRankedTags(x, r);
    if r == [] {
    } else if Before(x, r[0]) {
      forall e | e in r ensures Before(x, e) && x.tag != e.tag {
        var j :| 0 <= j < |r| && r[j] == e;
        if j > 0 {
          BeforeTransitive(x, r[0], r[j]);
        }
      }
      HeadKeepsListing(x, r);
    } else {
      StrLtTotal(x.tag, r[0].tag);
      var tail := r[1..];
      TailKeepsListing(r);
      InsertRankedKeepsListing(x, tail);
      var rest := InsertRanked(x, tail);
      forall e | e in rest ensures Before(r[0], e) && r[0].tag != e.tag {
        if e != x {
          var k :| 0 <= k < |tail| && tail[k] == e;
          assert e == r[k + 1];
        }
      }
      HeadKeepsListing(r[0], rest);
    }
  }

  /** The tags after an insertion are the old ones and the new one. */
  lemma InsertRankedTags(x: TagCount, r: seq<TagCount>)
    ensures Tags(InsertRanked(x, r)) == Tags(r) + {x.tag}
  {
  }

  /** Dropping the first entry keeps a listing a listing, without the first tag. */
  lemma TailKeepsListing(r: seq<TagCount>)
    requires r != [] && Ranked(r) && DistinctTags(r)
    ensures Ranked(r[1..]) && DistinctTags(r[1..])
    ensures r[0].tag !in Tags(r[1..])
  {
    assert forall i :: 0 <= i < |r| - 1 ==> r[1..][i] == r[i + 1];
    forall e | e in r[1..] ensures e.tag != r[0].tag {
      var k :| 0 <= k < |r| - 1 && r[1..][k] == e;
    }
  }

  /** An entry that comes before every entry of a listing, with a tag of its own, can head it. */
  lemma HeadKeepsListing(h: TagCount, r: seq<TagCount>)
    requires Ranked(r) && DistinctTags(r)
    requires forall e :: e in r ==> Before(h, e) && h.tag != e.tag
    ensures Ranked([h] + r) && DistinctTags([h] + r)
  {
    var r' := [h] + r;
    forall i, j | 0 <= i < j < |r'| ensures Before(r'[i], r'[j]) && r'[i].tag != r'[j].tag {
      assert r'[j] == r[j - 1];
      if i == 0 {
        assert r[j - 1] in r;
      } else {
        assert r'[i] == r[i - 1];
      }
    }
  }

  /** Counts every tag over every row's tag list, as the loop over rows fills `counts`. */
  method CountTags(rows: seq<seq<string>>) returns (counts: map<string, nat>)
    ensures forall t :: t in counts <==> TagTotal(rows, t) > 0
    ensures forall t :: t in counts ==> counts[t] == TagTotal(rows, t)
  {
    counts := map[];
    var i := 0;
    while i < |rows|
      invariant 0 <= i <= |rows|
      invariant forall t :: t in counts <==> TagTotal(rows[..i], t) > 0
      invariant forall t :: t in counts ==> counts[t] == TagTotal(rows[..i], t)
    {
      assert rows[..i + 1][..i] == rows[..i];
      counts := CountRow(counts, rows[i]);
      i := i + 1;
    }
    assert rows[..i] == rows;
  }

  /** Adds one row's tags to the counts. */
  method CountRow(counts0: map<string, nat>, row: seq<string>) returns (counts: map<string, nat>)
    ensures forall t :: t in counts <==> t in counts0 || Occurrences(row, t) > 0
    ensures forall t :: t in counts ==> counts[t] == (if t in counts0 then counts0[t] else 0) + Occurrences(row, t)
  {
    counts := counts0;
    var j := 0;
    while j < |row|
      invariant 0 <= j <= |row|
      invariant forall t :: t in counts <==> t in counts0 || Occurrences(row[..j], t) > 0
      invariant forall t :: t in counts ==> counts[t] == (if t in counts0 then counts0[t] else 0) + Occurrences(row[..j], t)
    {
      assert row[..j + 1][..j] == row[..j];
      var tag := row[j];
      counts := counts[tag := (if tag in counts then counts[tag] else 0) + 1];
      j := j + 1;
    }
    assert row[..j] == row;
  }

  /** Lists counted tags by count (highest first) and name, each once. */
  method RankCounts(counts: map<string, nat>) returns (r: seq<TagCount>)
    ensures Ranked(r) && DistinctTags(r)
    ensures forall e :: e in r ==> e.tag in counts && e.count == counts[e.tag]
    ensures Tags(r) == counts.Keys
  {
    r := [];
    var left := counts.Keys;
    while left != {}
      invariant left <= counts.Keys
      invariant Ranked(r) && DistinctTags(r)
      invariant forall e :: e in r ==> e.tag in counts && e.count == counts[e.tag]
      invariant Tags(r) == counts.Keys - left
      decreases left
    {
      var tag :| tag in left;
      InsertRankedKeepsListing(TagCount(tag, counts[tag]), r);
      r := InsertRanked(TagCount(tag, counts[tag]), r);
      left := left - {tag};
    }
  }

  /**
   * `get_all_tags`: counts every tag over every row's tag list, then lists the
   * counted tags by count (highest first) and name.
   */
  method GetAllTags(rows: seq<seq<string>>) returns (r: seq<TagCount>)
    ensures Ranked(r) && DistinctTags(r)
    ensures forall i :: 0 <= i < |r| ==> r[i].count == TagTotal(rows, r[i].tag) && r[i].count > 0
    ensures forall t :: TagTotal(rows, t) > 0 <==> t in Tags(r)
  {
    var counts := CountTags(rows);
    r := RankCounts(counts);
    assert forall i :: 0 <= i < |r| ==> r[i] in r;
  }
}
