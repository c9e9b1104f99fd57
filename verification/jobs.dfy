/** The job records of the listing page, the constant list they come from,
    and the filter that the search box and the two selectors drive. */
module Jobs {
  import opened JsText
  import opened Ordering

  /** One vacancy card. Every field but `id` is display text. */
  datatype Job = Job(
    id: int,
    title: string,
    company: string,
    location: string,
    salary: string,
    jobType: string,
    description: string,
    posted: string)

  /** Selector value that switches a location or type filter off. */
  const All: string := "all"

  /** The compile-time list of vacancies the page shows. */
  const MockJobs: seq<Job> := [
    Job(1, "Курьер на автомобиле", "Delivery Express", "Москва",
        "80 000 - 120 000 ₽", "Полная занятость",
        "Требуется курьер с личным автомобилем для доставки заказов по городу",
        "2 дня назад"),
    Job(2, "Пеший курьер", "FastFood Delivery", "Санкт-Петербург",
        "60 000 - 90 000 ₽", "Частичная занятость",
        "Ищем активных курьеров для доставки еды в центре города",
        "1 день назад"),
    Job(3, "Курьер на велосипеде", "EcoCourier", "Москва",
        "70 000 - 100 000 ₽", "Полная занятость",
        "Экологичная доставка на велосипеде. Предоставляем оборудование",
        "3 дня назад"),
    Job(4, "Курьер-водитель", "Logistics Pro", "Екатеринбург",
        "90 000 - 130 000 ₽", "Полная занятость",
        "Требуется опытный водитель категории B для межгородских доставок",
        "5 дней назад"),
    Job(5, "Курьер на скутере", "Quick Delivery", "Казань",
        "65 000 - 95 000 ₽", "Полная занятость",
        "Доставка посылок на скутере. Предоставляем транспорт и топливо",
        "1 неделю назад"),
    Job(6, "Вечерний курьер", "Night Express", "Москва",
        "75 000 - 110 000 ₽", "Частичная занятость",
        "Работа в вечернее время с 18:00 до 23:00. Повышенные ставки",
        "4 дня назад")
  ]

  // ---------------------------------------------------------------------
  // The filter predicate
  // ---------------------------------------------------------------------

  /** Title or company contains the query, both sides lowered. A query is
      only found in a field at least as long as itself. */
  predicate MatchesSearch(job: Job, query: string)
    ensures MatchesSearch(job, query) ==> |query| <= |job.title| || |query| <= |job.company|
  {
    Includes(Lower(job.title), Lower(query)) || Includes(Lower(job.company), Lower(query))
  }

  /** The location test: `"all"` admits every record, any other value only
      the records in that city. */
  predicate MatchesLocation(job: Job, location: string)
    ensures location == All ==> MatchesLocation(job, location)
    ensures location != All ==> (MatchesLocation(job, location) <==> job.location == location)
  {
    location == All || job.location == location
  }

  /** The employment-type test: `"all"` admits every record, any other value
      only the records of that type. */
  predicate MatchesType(job: Job, jobType: string)
    ensures jobType == All ==> MatchesType(job, jobType)
    ensures jobType != All ==> (MatchesType(job, jobType) <==> job.jobType == jobType)
  {
    jobType == All || job.jobType == jobType
  }

  /** The conjunction a record must satisfy to stay in the list. A record
      that passes is in the chosen city and of the chosen type (unless the
      choice is `"all"`), and its title or company is at least as long as
      the query. */
  predicate Matches(job: Job, query: string, location: string, jobType: string)
    ensures Matches(job, query, location, jobType) ==>
      (location == All || job.location == location) && (jobType == All || job.jobType == jobType) &&
      (|query| <= |job.title| || |query| <= |job.company|)
  {
    MatchesSearch(job, query) && MatchesLocation(job, location) && MatchesType(job, jobType)
  }

  /** `jobs.filter(...)`: keeps, in order, the records that match. */
  function Filter(jobs: seq<Job>, query: string, location: string, jobType: string): (r: seq<Job>)
    ensures |r| <= |jobs|
  {
    if jobs == [] then []
    else
      var rest := Filter(jobs[1..], query, location, jobType);
      if Matches(jobs[0], query, location, jobType) then [jobs[0]] + rest else rest
  }

  /** Every record kept matches, and every matching record is kept. */
  lemma {:induction false} FilterMembers(jobs: seq<Job>, query: string, location: string, jobType: string, j: Job)
    ensures j in Filter(jobs, query, location, jobType) <==> j in jobs && Matches(j, query, location, jobType)
  {
    if jobs != [] {
      FilterMembers(jobs[1..], query, location, jobType, j);
      assert jobs == [jobs[0]] + jobs[1..];
    }
  }

  /** Filtering a second time with the same settings changes nothing. */
  lemma {:induction false} FilterIdempotent(jobs: seq<Job>, query: string, location: string, jobType: string)
    ensures Filter(Filter(jobs, query, location, jobType), query, location, jobType) == Filter(jobs, query, location, jobType)
  {
    if jobs != [] {
      FilterIdempotent(jobs[1..], query, location, jobType);
      var rest := Filter(jobs[1..], query, location, jobType);
      if Matches(jobs[0], query, location, jobType) {
        assert ([jobs[0]] + rest)[1..] == rest;
      }
    }
  }

  /** A record found by a query is found by every part of that query. */
  lemma ShorterQueryMatches(job: Job, query: string, longer: string, location: string, jobType: string)
    requires Includes(longer, query)
    requires Matches(job, longer, location, jobType)
    ensures Matches(job, query, location, jobType)
  {
    LowerIncludes(longer, query);
    if Includes(Lower(job.title), Lower(longer)) {
      IncludesTransitive(Lower(job.title), Lower(longer), Lower(query));
    } else {
      IncludesTransitive(Lower(job.company), Lower(longer), Lower(query));
    }
  }

  /** Typing more (a query that includes the previous one) never finds
      more records. */
  lemma {:induction false} LongerQueryFindsFewer(jobs: seq<Job>, query: string, longer: string, location: string, jobType: string)
    requires Includes(longer, query)
    ensures |Filter(jobs, longer, location, jobType)| <= |Filter(jobs, query, location, jobType)|
  {
    if jobs != [] {
      LongerQueryFindsFewer(jobs[1..], query, longer, location, jobType);
      if Matches(jobs[0], longer, location, jobType) {
        ShorterQueryMatches(jobs[0], query, longer, location, jobType);
      }
    }
  }

  /** Any rearrangement of the filtered list holds only records of the
      input that pass the filter, and no more of them than the input has. */
  lemma RearrangedMembers(jobs: seq<Job>, query: string, location: string, jobType: string, s: seq<Job>)
    requires multiset(s) == multiset(Filter(jobs, query, location, jobType))
    ensures |s| <= |jobs|
    ensures forall j :: j in s ==> j in jobs && Matches(j, query, location, jobType)
  {
    assert |s| == |multiset(s)| == |Filter(jobs, query, location, jobType)|;
    forall j | j in s ensures j in jobs && Matches(j, query, location, jobType) {
      assert j in multiset(Filter(jobs, query, location, jobType));
      FilterMembers(jobs, query, location, jobType, j);
    }
  }

  // ---------------------------------------------------------------------
  // Subsequences
  // ---------------------------------------------------------------------

  /** `idx` picks the elements of `r` out of `s` at strictly increasing
      positions. */
  ghost predicate Embedding<T>(idx: seq<int>, r: seq<T>, s: seq<T>)
  {
    |idx| == |r|
    && (forall k :: 0 <= k < |idx| ==> 0 <= idx[k] < |s| && r[k] == s[idx[k]])
    && (forall k, l :: 0 <= k < l < |idx| ==> idx[k] < idx[l])
  }

  /** `r` is `s` with some elements removed and the rest in their order. */
  ghost predicate IsSubsequence<T>(r: seq<T>, s: seq<T>)
  {
    exists idx :: Embedding(idx, r, s)
  }

  /** Shifts every position of an embedding by one. */
  function Shift(idx: seq<int>): seq<int>
  {
    seq(|idx|, k requires 0 <= k < |idx| => idx[k] + 1)
  }

  /** An embedding of `r` into `s` still embeds `r` once `x` is put in
      front of `s`. */
  lemma EmbedSkip<T>(idx: seq<int>, r: seq<T>, s: seq<T>, x: T)
    requires Embedding(idx, r, s)
    ensures Embedding(Shift(idx), r, [x] + s)
  {
  }

  /** An embedding of `r` into `s` extends to one of `[x] + r` into
      `[x] + s`. */
  lemma EmbedKeep<T>(idx: seq<int>, r: seq<T>, s: seq<T>, x: T)
    requires Embedding(idx, r, s)
    ensures Embedding([0] + Shift(idx), [x] + r, [x] + s)
  {
    var e := [0] + Shift(idx);
    forall k | 0 <= k < |e| ensures 0 <= e[k] < |[x] + s| && ([x] + r)[k] == ([x] + s)[e[k]] {
      if k > 0 {
        assert e[k] == idx[k - 1] + 1;
      }
    }
  }

  /** The filtered list keeps the original order of the records. */
  lemma {:induction false} FilterIsSubsequence(jobs: seq<Job>, query: string, location: string, jobType: string)
    ensures IsSubsequence(Filter(jobs, query, location, jobType), jobs)
  {
    var r := Filter(jobs, query, location, jobType);
    if jobs == [] {
      assert Embedding([], r, jobs);
    } else {
      var rest := Filter(jobs[1..], query, location, jobType);
      FilterIsSubsequence(jobs[1..], query, location, jobType);
      var idx :| Embedding(idx, rest, jobs[1..]);
      assert jobs == [jobs[0]] + jobs[1..];
      if Matches(jobs[0], query, location, jobType) {
        EmbedKeep(idx, rest, jobs[1..], jobs[0]);
        assert Embedding([0] + Shift(idx), r, jobs);
      } else {
        EmbedSkip(idx, rest, jobs[1..], jobs[0]);
        assert Embedding(Shift(idx), r, jobs);
      }
    }
  }

  /** How often each record occurs in the filtered list: as often as in the
      input when it matches, never otherwise. */
  lemma {:induction false} FilterCount(jobs: seq<Job>, query: string, location: string, jobType: string, j: Job)
    ensures multiset(Filter(jobs, query, location, jobType))[j]
         == if Matches(j, query, location, jobType) then multiset(jobs)[j] else 0
  {
    if jobs != [] {
      FilterCount(jobs[1..], query, location, jobType, j);
      assert jobs == [jobs[0]] + jobs[1..];
    }
  }

  /** The empty query is found in every title. */
  lemma EmptyQueryMatches(job: Job)
    ensures MatchesSearch(job, "")
  {
    assert Lower("") == "";
    IncludesEmpty(Lower(job.title));
  }

  /** With an empty query and both selectors on "all" nothing is removed. */
  lemma {:induction false} FilterNothing(jobs: seq<Job>)
    ensures Filter(jobs, "", All, All) == jobs
  {
    if jobs != [] {
      EmptyQueryMatches(jobs[0]);
      FilterNothing(jobs[1..]);
    }
  }

  /** A record's id, as a sort key. */
  function Id(job: Job): int
  {
    job.id
  }

  /** The ids of `jobs` strictly increase along the list. */
  ghost predicate StrictlyAscendingIds(jobs: seq<Job>)
  {
    StrictlySortedBy(Id, jobs)
  }

  /** Removing records cannot break a strictly increasing id order. */
  lemma SubsequenceAscendingIds(r: seq<Job>, s: seq<Job>)
    requires IsSubsequence(r, s)
    requires StrictlyAscendingIds(s)
    ensures StrictlyAscendingIds(r)
  {
    var idx :| Embedding(idx, r, s);
    forall k, l | 0 <= k < l < |r| ensures Id(r[k]) < Id(r[l]) {
      assert idx[k] < idx[l];
    }
  }

  /** The ids 1..6 are unique and already in increasing order. */
  lemma MockJobsAscendingIds()
    ensures StrictlyAscendingIds(MockJobs)
  {
  }

  /** Whatever the query and selectors, the filtered list is in increasing
      id order. */
  lemma FilteredAscendingIds(query: string, location: string, jobType: string)
    ensures StrictlyAscendingIds(Filter(MockJobs, query, location, jobType))
  {
    FilterIsSubsequence(MockJobs, query, location, jobType);
    MockJobsAscendingIds();
    SubsequenceAscendingIds(Filter(MockJobs, query, location, jobType), MockJobs);
  }

  /** A list whose every record matches passes the filter unchanged. */
  lemma {:induction false} FilterAllMatching(jobs: seq<Job>, query: string, location: string, jobType: string)
    requires forall k :: 0 <= k < |jobs| ==> Matches(jobs[k], query, location, jobType)
    ensures Filter(jobs, query, location, jobType) == jobs
  {
    if jobs != [] {
      FilterAllMatching(jobs[1..], query, location, jobType);
    }
  }

  /** The lowered `s` contains `q` at position `i`, checked character by
      character. */
  lemma LowerContains(s: string, q: string, i: nat)
    requires i + |q| <= |s|
    requires forall k :: 0 <= k < |q| ==> LowerChar(s[i + k]) == q[k]
    ensures Includes(Lower(s), q)
  {
    assert Lower(s)[i..i + |q|] == q;
    OccursIncluded(Lower(s), q, i);
  }

  /** "курьер" (courier), capitalised or not, is "курьер" once lowered. */
  lemma CourierAt(s: string, i: nat)
    requires i + 6 <= |s|
    requires s[i..i + 6] == "Курьер" || s[i..i + 6] == "курьер"
    ensures Includes(Lower(s), Lower("курьер"))
  {
    assert Lower("курьер") == "курьер";
    forall k | 0 <= k < 6 ensures LowerChar(s[i + k]) == "курьер"[k] {
      assert s[i + k] == s[i..i + 6][k];
    }
    LowerContains(s, "курьер", i);
  }

  /** Records whose titles all contain "курьер" at the given positions
      all match that query. */
  lemma {:induction false} CourierTitlesMatch(jobs: seq<Job>, at: seq<nat>)
    requires |at| == |jobs|
    requires forall k :: 0 <= k < |jobs| ==> at[k] + 6 <= |jobs[k].title|
    requires forall k :: 0 <= k < |jobs| ==>
      jobs[k].title[at[k]..at[k] + 6] == "Курьер" || jobs[k].title[at[k]..at[k] + 6] == "курьер"
    ensures Filter(jobs, "курьер", All, All) == jobs
  {
    forall k | 0 <= k < |jobs| ensures Matches(jobs[k], "курьер", All, All) {
      CourierAt(jobs[k].title, at[k]);
    }
    FilterAllMatching(jobs, "курьер", All, All);
  }

  /** Searching for "курьер" (courier) keeps all six vacancies: every title
      contains the word once lowered. */
  lemma CourierQueryKeepsAll()
    ensures Filter(MockJobs, "курьер", All, All) == MockJobs
  {
    CourierTitlesMatch(MockJobs, [0, 6, 0, 0, 0, 9]);
  }

  /** With an empty query and no location selected, the filter keeps the
      records of the selected type. */
  lemma {:induction false} FilterByTypeOnly(jobs: seq<Job>, jobType: string, j: Job)
    ensures j in Filter(jobs, "", All, jobType) <==> j in jobs && MatchesType(j, jobType)
  {
    EmptyQueryMatches(j);
    FilterMembers(jobs, "", All, jobType, j);
  }

  /** One step of the filter, at position `k` of `jobs`. */
  lemma FilterStep(jobs: seq<Job>, query: string, location: string, jobType: string, k: nat)
    requires k < |jobs|
    ensures Filter(jobs[k..], query, location, jobType)
         == (if Matches(jobs[k], query, location, jobType) then [jobs[k]] else [])
            + Filter(jobs[k + 1..], query, location, jobType)
  {
    assert jobs[k..][1..] == jobs[k + 1..];
  }

  /** Six records of which the first, third, fourth and fifth have type
      `ty` filter down to those four. */
  lemma FilterFourOfSix(m: seq<Job>, ty: string)
    requires |m| == 6 && ty != All
    requires m[0].jobType == ty && m[1].jobType != ty && m[2].jobType == ty
    requires m[3].jobType == ty && m[4].jobType == ty && m[5].jobType != ty
    ensures Filter(m, "", All, ty) == [m[0], m[2], m[3], m[4]]
  {
    forall k | 0 <= k < 6 ensures MatchesSearch(m[k], "") {
      EmptyQueryMatches(m[k]);
    }
    assert Filter(m[5..], "", All, ty) == [] by {
      FilterStep(m, "", All, ty, 5);
      assert m[6..] == [];
    }
    assert Filter(m[4..], "", All, ty) == [m[4]] by {
      FilterStep(m, "", All, ty, 4);
    }
    assert Filter(m[3..], "", All, ty) == [m[3], m[4]] by {
      FilterStep(m, "", All, ty, 3);
    }
    assert Filter(m[2..], "", All, ty) == [m[2], m[3], m[4]] by {
      FilterStep(m, "", All, ty, 2);
    }
    assert Filter(m[1..], "", All, ty) == [m[2], m[3], m[4]] by {
      FilterStep(m, "", All, ty, 1);
    }
    FilterStep(m, "", All, ty, 0);
    assert m[0..] == m;
  }

  /** Selecting full-time work ("Полная занятость") leaves four vacancies:
      ids 1, 3, 4 and 5. */
  lemma FullTimeKeepsFour()
    ensures Filter(MockJobs, "", All, "Полная занятость")
         == [MockJobs[0], MockJobs[2], MockJobs[3], MockJobs[4]]
  {
    FilterFourOfSix(MockJobs, "Полная занятость");
  }
}
