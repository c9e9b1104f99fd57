/** The sort step of the listing page: the comparator chosen by the sort
    selector, and a stable sort run on a copy of the filtered list. */
module JobSort {
  import opened JsText
  import opened Jobs
  import opened Ordering
  import opened Sorting

  /** Selector value: most recent first, by ascending id. */
  const Newest: string := "newest"
  /** Selector value: best paid first, by descending salary. */
  const Salary: string := "salary"

  /** The number `parseInt` reads from the salary text; 0 stands in when
      there is none (the comparator does not use it then). */
  function SalaryValue(job: Job): (v: int)
    ensures v >= 0
    ensures ParseInt(job.salary).None? ==> v == 0
  {
    match ParseInt(job.salary)
    case Some(v) => v
    case None => 0
  }

  /** Under `sortBy` the comparator really compares this record by a key:
      always, except under "salary" when the salary text does not start with
      a digit (`parseInt` gives NaN, and the comparison of NaN is 0). */
  predicate Keyed(sortBy: string, job: Job)
  {
    sortBy != Salary || ParseInt(job.salary).Some?
  }

  predicate AllKeyed(sortBy: string, jobs: seq<Job>)
  {
    forall i :: 0 <= i < |jobs| ==> Keyed(sortBy, jobs[i])
  }

  /** The key the comparator orders by, ascending: the id for "newest", the
      negated salary for "salary", and one key for every record otherwise. */
  function SortKey(sortBy: string, job: Job): (k: int)
    ensures sortBy == Newest ==> k == job.id
    ensures sortBy == Salary ==> k <= 0
    ensures sortBy != Newest && sortBy != Salary ==> k == 0
  {
    if sortBy == Newest then job.id
    else if sortBy == Salary then -SalaryValue(job)
    else 0
  }

  /** The comparator handed to `sort`: negative when `a` goes first,
      positive when `b` does, zero when they tie. A NaN difference counts
      as zero, as JavaScript's sort does. */
  function Compare(sortBy: string, a: Job, b: Job): (r: int)
    ensures Keyed(sortBy, a) && Keyed(sortBy, b) ==> r == SortKey(sortBy, a) - SortKey(sortBy, b)
    ensures sortBy == Salary && !(Keyed(sortBy, a) && Keyed(sortBy, b)) ==> r == 0
    ensures sortBy != Newest && sortBy != Salary ==> r == 0
  {
    if sortBy == Newest then a.id - b.id
    else if sortBy == Salary then
      match (ParseInt(b.salary), ParseInt(a.salary))
      case (Some(x), Some(y)) => x as int - y as int
      case _ => 0
    else 0
  }

  /** `SortKey` under one selector value, as a function of the record;
      under "newest" it is the id key `Id` itself. */
  function KeyFor(sortBy: string): Job -> int
  {
    if sortBy == Newest then Id else job => SortKey(sortBy, job)
  }

  /** `[...jobs].sort(cmp)`: sorts a fresh copy, so `jobs` itself is left as
      it was. The result holds the same records. Whenever the comparator is
      a key comparison on them, it is in key order and records with equal
      keys keep their order in `jobs` (the sort is stable); under any
      selector value other than "newest" and "salary" it is `jobs`
      unchanged. */
  method SortedCopy(sortBy: string, jobs: seq<Job>) returns (sorted: seq<Job>)
    ensures multiset(sorted) == multiset(jobs)
    ensures AllKeyed(sortBy, jobs) ==> SortedBy(KeyFor(sortBy), sorted)
    ensures AllKeyed(sortBy, jobs) ==> StableFor(KeyFor(sortBy), sorted, jobs)
    ensures sortBy != Newest && sortBy != Salary ==> sorted == jobs
  {
    var a := new Job[|jobs|](i requires 0 <= i < |jobs| => jobs[i]);
    assert a[..] == jobs;
    ghost var key := KeyFor(sortBy);
    ghost var ok := job => Keyed(sortBy, job);
    assert KeyComparator((x, y) => Compare(sortBy, x, y), key, ok);
    assert AllOk(ok, jobs) == AllKeyed(sortBy, jobs);
    InsertionSort((x, y) => Compare(sortBy, x, y), key, ok, a);
    sorted := a[..];
    if sortBy != Newest && sortBy != Salary {
      StableConstantKey(key, 0, sorted, jobs);
    }
  }

  // ---------------------------------------------------------------------
  // What the sorted list is
  // ---------------------------------------------------------------------

  /** A salary text that opens with two digits and a space parses to that
      two-digit number. */
  lemma TwoDigitPrefix(salary: string, d0: char, d1: char)
    requires IsDigit(d0) && IsDigit(d1)
    requires [d0, d1, ' '] <= salary
    ensures ParseInt(salary) == Some(10 * DigitValue(d0) + DigitValue(d1))
  {
    assert salary[0] == d0 && salary[1] == d1 && salary[2] == ' ';
    assert DigitRun(salary[2..]) == 0;
    assert DigitRun(salary[1..]) == 1 by {
      assert salary[1..][1..] == salary[2..];
    }
    var d := salary[..2];
    assert d[..1][..0] == [];
    assert DigitsValue(d[..1]) == DigitValue(d0);
  }

  /** Six salary texts opening "80 ", "60 ", "70 ", "90 ", "65 " and
      "75 " parse to those numbers. */
  lemma SixSalaries(m: seq<Job>)
    requires |m| == 6
    requires "80 " <= m[0].salary && "60 " <= m[1].salary && "70 " <= m[2].salary
    requires "90 " <= m[3].salary && "65 " <= m[4].salary && "75 " <= m[5].salary
    ensures ParseInt(m[0].salary) == Some(80) && ParseInt(m[1].salary) == Some(60)
    ensures ParseInt(m[2].salary) == Some(70) && ParseInt(m[3].salary) == Some(90)
    ensures ParseInt(m[4].salary) == Some(65) && ParseInt(m[5].salary) == Some(75)
    ensures AllKeyed(Salary, m)
  {
    TwoDigitPrefix(m[0].salary, '8', '0');
    TwoDigitPrefix(m[1].salary, '6', '0');
    TwoDigitPrefix(m[2].salary, '7', '0');
    TwoDigitPrefix(m[3].salary, '9', '0');
    TwoDigitPrefix(m[4].salary, '6', '5');
    TwoDigitPrefix(m[5].salary, '7', '5');
  }

  /** `parseInt` reads the thousands of the lower bound of every salary
      range: 80, 60, 70, 90, 65 and 75 for ids 1 to 6. */
  lemma MockSalaries()
    ensures ParseInt(MockJobs[0].salary) == Some(80) && ParseInt(MockJobs[1].salary) == Some(60)
    ensures ParseInt(MockJobs[2].salary) == Some(70) && ParseInt(MockJobs[3].salary) == Some(90)
    ensures ParseInt(MockJobs[4].salary) == Some(65) && ParseInt(MockJobs[5].salary) == Some(75)
    ensures AllKeyed(Salary, MockJobs)
  {
    SixSalaries(MockJobs);
  }

  /** Filtering keeps only records of the input, so it keeps them keyed. */
  lemma {:induction false} FilterKeepsKeyed(sortBy: string, jobs: seq<Job>, query: string, location: string, jobType: string)
    requires AllKeyed(sortBy, jobs)
    ensures AllKeyed(sortBy, Filter(jobs, query, location, jobType))
  {
    if jobs != [] {
      FilterKeepsKeyed(sortBy, jobs[1..], query, location, jobType);
    }
  }

  /** Every record of the filtered list has a usable key, whatever the
      selector: all six salaries start with a number. */
  lemma FilteredKeyed(sortBy: string, query: string, location: string, jobType: string)
    ensures AllKeyed(sortBy, Filter(MockJobs, query, location, jobType))
  {
    MockSalaries();
    FilterKeepsKeyed(sortBy, MockJobs, query, location, jobType);
  }

  /** Sorting by "newest" never moves anything: the filtered list is already
      in increasing id order, and the sorted copy is that same list. */
  lemma NewestKeepsFilteredOrder(query: string, location: string, jobType: string, sorted: seq<Job>)
    requires multiset(sorted) == multiset(Filter(MockJobs, query, location, jobType))
    requires SortedBy(KeyFor(Newest), sorted)
    ensures sorted == Filter(MockJobs, query, location, jobType)
    ensures StrictlyAscendingIds(sorted)
  {
    var filtered := Filter(MockJobs, query, location, jobType);
    FilteredAscendingIds(query, location, jobType);
    SortedUnique(KeyFor(Newest), sorted, filtered);
  }

  /** In key order under "salary", the salaries `parseInt` reads never
      increase along the list: best paid first. */
  lemma SalaryDescending(sorted: seq<Job>)
    requires SortedBy(KeyFor(Salary), sorted)
    ensures forall i, k :: 0 <= i < k < |sorted| ==> SalaryValue(sorted[i]) >= SalaryValue(sorted[k])
  {
    forall i, k | 0 <= i < k < |sorted| ensures SalaryValue(sorted[i]) >= SalaryValue(sorted[k]) {
      assert KeyFor(Salary)(sorted[i]) <= KeyFor(Salary)(sorted[k]);
    }
  }

  /** Under "salary" the key of a record is its salary, negated. */
  lemma SalaryKey(job: Job, v: nat)
    requires ParseInt(job.salary) == Some(v)
    ensures KeyFor(Salary)(job) == -(v as int)
  {
  }

  /** With no filter, sorting by salary shows ids 4, 1, 6, 3, 5, 2: the
      order of the numbers `parseInt` reads (90, 80, 75, 70, 65, 60). */
  lemma SalaryOrder(sorted: seq<Job>)
    requires multiset(sorted) == multiset(Filter(MockJobs, "", All, All))
    requires SortedBy(KeyFor(Salary), sorted)
    ensures sorted == [MockJobs[3], MockJobs[0], MockJobs[5], MockJobs[2], MockJobs[4], MockJobs[1]]
  {
    FilterNothing(MockJobs);
    MockSalaries();
    SalaryKey(MockJobs[0], 80);
    SalaryKey(MockJobs[1], 60);
    SalaryKey(MockJobs[2], 70);
    SalaryKey(MockJobs[3], 90);
    SalaryKey(MockJobs[4], 65);
    SalaryKey(MockJobs[5], 75);
    SixInKeyOrder(KeyFor(Salary), MockJobs, sorted);
  }

  /** Six elements whose keys rank them 2nd, 6th, 4th, 1st, 5th, 3rd (all
      different, as the six salaries rank the records) have exactly one
      sorted arrangement: m[3], m[0], m[5], m[2], m[4], m[1]. */
  lemma SixInKeyOrder<T>(key: T -> int, m: seq<T>, sorted: seq<T>)
    requires |m| == 6
    requires key(m[3]) < key(m[0]) < key(m[5]) < key(m[2]) < key(m[4]) < key(m[1])
    requires multiset(sorted) == multiset(m)
    requires SortedBy(key, sorted)
    ensures sorted == [m[3], m[0], m[5], m[2], m[4], m[1]]
  {
    var t := [m[3], m[0], m[5], m[2], m[4], m[1]];
    PicksAllSame(m, t, [3, 0, 5, 2, 4, 1]);
    SixStrictly(key, t);
    SortedUnique(key, sorted, t);
  }

  /** Six elements with increasing keys are strictly sorted. */
  lemma SixStrictly<T>(key: T -> int, t: seq<T>)
    requires |t| == 6
    requires key(t[0]) < key(t[1]) < key(t[2]) < key(t[3]) < key(t[4]) < key(t[5])
    ensures StrictlySortedBy(key, t)
  {
    StrictlySortedByKeys(key, t, [key(t[0]), key(t[1]), key(t[2]), key(t[3]), key(t[4]), key(t[5])]);
  }
}
