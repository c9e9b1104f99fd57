/** The `Index` page component: its five pieces of view state, the
    handlers that change them, and the list of cards it derives from them. */
module IndexPage {
  import opened Jobs
  import opened Ordering
  import opened JobSort
  import opened Pagination

  /** `Math.ceil(mockJobs.length / itemsPerPage)`: counted over the whole
      constant list, not over the filtered one. */
  function TotalPages(): (r: nat)
    ensures r * ItemsPerPage >= |MockJobs|
  {
    CeilDiv(|MockJobs|, ItemsPerPage)
  }

  /** Six records fit on one page, whatever the filters select. */
  lemma TotalPagesIsOne()
    ensures TotalPages() == 1
  {
  }

  /** The Previous / page-number / Next controls are only drawn when there
      is more than one page; with six records they never are. */
  lemma PaginationHidden()
    ensures !(TotalPages() > 1)
  {
    TotalPagesIsOne();
  }

  class ListingPage {
    var searchQuery: string
    var locationFilter: string
    var typeFilter: string
    var sortBy: string
    var currentPage: int

    /** The page number is one of the pages that exist. */
    ghost predicate Valid()
      reads this
    {
      1 <= currentPage <= TotalPages()
    }

    /** The state on first render: empty search, every city, every type,
        newest first, page 1. */
    constructor ()
      ensures Valid()
      ensures searchQuery == "" && locationFilter == All && typeFilter == All
      ensures sortBy == Newest && currentPage == 1
    {
      searchQuery := "";
      locationFilter := All;
      typeFilter := All;
      sortBy := Newest;
      currentPage := 1;
    }

    /** Typing in the search box. The page number is kept. */
    method SetSearchQuery(query: string)
      requires Valid()
      modifies this`searchQuery
      ensures Valid() && searchQuery == query
    {
      searchQuery := query;
    }

    /** Choosing a city (or "all"). The page number is kept. */
    method SetLocationFilter(location: string)
      requires Valid()
      modifies this`locationFilter
      ensures Valid() && locationFilter == location
    {
      locationFilter := location;
    }

    /** Choosing an employment type (or "all"). The page number is kept. */
    method SetTypeFilter(jobType: string)
      requires Valid()
      modifies this`typeFilter
      ensures Valid() && typeFilter == jobType
    {
      typeFilter := jobType;
    }

    /** Choosing the sort order. The page number is kept. */
    method SetSortBy(key: string)
      requires Valid()
      modifies this`sortBy
      ensures Valid() && sortBy == key
    {
      sortBy := key;
    }

    /** The Previous control: `Math.max(1, prev - 1)`. */
    method Previous()
      requires Valid()
      modifies this`currentPage
      ensures Valid()
      ensures currentPage == PrevPage(old(currentPage))
      ensures old(currentPage) == 1 ==> currentPage == 1
    {
      StepsStayInRange(currentPage, TotalPages());
      currentPage := PrevPage(currentPage);
    }

    /** The Next control: `Math.min(totalPages, prev + 1)`. */
    method Next()
      requires Valid()
      modifies this`currentPage
      ensures Valid()
      ensures currentPage == NextPage(old(currentPage), TotalPages())
      ensures old(currentPage) == TotalPages() ==> currentPage == old(currentPage)
    {
      StepsStayInRange(currentPage, TotalPages());
      currentPage := NextPage(currentPage, TotalPages());
    }

    /** The link of page `i + 1`, one of the links drawn for
        `i` in `[0, totalPages)`. */
    method GoToPage(i: int)
      requires Valid()
      requires 0 <= i < TotalPages()
      modifies this`currentPage
      ensures Valid() && currentPage == i + 1
    {
      currentPage := i + 1;
    }

    /** What one render derives from the state: the filtered list, its
        sorted copy and the page of cards shown. */
    method VisibleJobs() returns (filtered: seq<Job>, sorted: seq<Job>, page: seq<Job>)
      requires Valid()
      ensures filtered == Filter(MockJobs, searchQuery, locationFilter, typeFilter)
      ensures forall j :: j in page ==> j in MockJobs && Matches(j, searchQuery, locationFilter, typeFilter)
      ensures multiset(sorted) == multiset(filtered)
      ensures sortBy == Newest ==> sorted == filtered && StrictlyAscendingIds(sorted)
      ensures sortBy == Salary ==>
        forall i, k :: 0 <= i < k < |sorted| ==> SalaryValue(sorted[i]) >= SalaryValue(sorted[k])
      ensures sortBy == Salary ==> StableFor(KeyFor(Salary), sorted, filtered)
      ensures sortBy != Newest && sortBy != Salary ==> sorted == filtered
      ensures page == PageOf(sorted, currentPage)
      ensures page == sorted && |page| <= ItemsPerPage
    {
      filtered := Filter(MockJobs, searchQuery, locationFilter, typeFilter);
      FilteredKeyed(sortBy, searchQuery, locationFilter, typeFilter);
      sorted := SortedCopy(sortBy, filtered);
      if sortBy == Newest {
        NewestKeepsFilteredOrder(searchQuery, locationFilter, typeFilter, sorted);
      } else if sortBy == Salary {
        SalaryDescending(sorted);
      }
      page := PageOf(sorted, currentPage);
      RearrangedMembers(MockJobs, searchQuery, locationFilter, typeFilter, sorted);
      TotalPagesIsOne();
      ShortListOnePage(sorted);
    }
  }
}
