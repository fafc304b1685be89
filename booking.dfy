/**
 * The slot-selection rule of `BookingControl.book` (bookit.py): each link of the
 * facility's listing page is examined in page order, its date and start time are
 * read out of the URL, and the first link that decides something governs the
 * outcome: book it, report the slot as already booked, or, when no link decides,
 * report that nothing is available.
 */
module Booking {
  import opened Wrappers
  import opened Scan

  /** A link of the listing page: its anchor text and its (absolute) URL. */
  datatype Link = Link(text: string, url: string)

  /** What the scan of the listing decides. */
  datatype Choice = Book(url: string) | AlreadyBooked | NotAvailable

  /**
   * The exceptions a booking attempt can end with: the RuntimeError for a slot
   * that is already booked, the ValueError for a slot that is not offered, and
   * any other failure that is not a ValueError (an HTTP error status, a page
   * whose layout has changed). A failure of the network or parsing layers that
   * Python raises as a ValueError (a form without an action URL, an invalid
   * URL, an undecodable reply) is caught by the retry loop like a slot that is
   * not offered, so it is represented as `Raised(NotAvailableError(..))`.
   */
  datatype Error =
    | AlreadyBookedError(facility: int, date: string, hour: string)
    | NotAvailableError(facility: int, date: string, hour: string)
    | TransportError

  /** How one call of `book` ends: it returns the booking result, or it raises. */
  datatype Outcome = Returned(booked: bool) | Raised(error: Error)

  /** The part of `dDate=(\d\d\d\d-\d\d-\d\d)` inside the group. */
  const DateGroup: Pattern := [Digit, Digit, Digit, Digit, Lit('-'), Digit, Digit, Lit('-'), Digit, Digit]
  const DatePattern: Pattern := Literal("dDate=") + DateGroup

  /** `cDesc=(\d\d\d\d)-(\d\d\d\d)`; only the first group, the start time, is used. */
  const TimeGroup: Pattern := [Digit, Digit, Digit, Digit]
  const TimePattern: Pattern := Literal("cDesc=") + TimeGroup + [Lit('-')] + TimeGroup

  /** `d` has the shape `dddd-dd-dd`. */
  predicate IsDateShape(d: string) {
    |d| == 10 && forall k :: 0 <= k < 10 ==> AtomMatches(DateGroup[k], d[k])
  }

  /** `h` has the shape `dddd`. */
  predicate IsHourShape(h: string) {
    |h| == 4 && forall k :: 0 <= k < 4 ==> IsDigit(h[k])
  }

  /** `date_re.search(url).group(1)`, or None when there is no match. */
  function DateOf(url: string): (r: Option<string>)
    ensures r.None? <==> forall i: nat :: !MatchesAt(DatePattern, url, i)
    ensures r.Some? ==> IsDateShape(r.value)
  {
    var r := Search(DatePattern, url, 6, 16);
    assert r.Some? ==> forall k :: 0 <= k < 10 ==> DatePattern[k + 6] == DateGroup[k];
    r
  }

  /** `time_re.search(url).group(1)`: the start time of the slot, or None. */
  function TimeOf(url: string): (r: Option<string>)
    ensures r.None? <==> forall i: nat :: !MatchesAt(TimePattern, url, i)
    ensures r.Some? ==> IsHourShape(r.value)
  {
    var r := Search(TimePattern, url, 6, 10);
    assert r.Some? ==> forall k :: 0 <= k < 4 ==> IsDigit(r.value[k]) by {
      if r.Some? {
        forall k | 0 <= k < 4 ensures IsDigit(r.value[k]) {
          assert TimePattern[k + 6] == Digit;
          assert AtomMatches(TimePattern[k + 6], r.value[k + 6 - 6]);
        }
      }
    }
    r
  }

  /**
   * What one link decides, if anything: the body of the loop in `book`.
   * None means the scan moves on to the next link.
   */
  function LinkVerdict(link: Link, date: string, hour: string): (r: Option<Choice>)
    ensures r.Some? ==> DateOf(link.url) == Some(date) && r.value != NotAvailable
    ensures r.Some? && r.value.Book? ==> r.value.url == link.url && TimeOf(link.url) == Some(hour)
    ensures r == Some(AlreadyBooked) ==>
              TimeOf(link.url) != Some(hour) && Contains(link.url, "cancel=true") && hour <= link.text
  {
    if DateOf(link.url) == Some(date) then
      if TimeOf(link.url) == Some(hour) then Some(Book(link.url))
      else if Contains(link.url, "cancel=true") && hour <= link.text then Some(AlreadyBooked)
      else None
    else None
  }

  /** The scan of the listing in page order; the first link with a verdict governs. */
  function Choose(links: seq<Link>, date: string, hour: string): (r: Choice)
    ensures r != NotAvailable ==> exists k :: 0 <= k < |links| && LinkVerdict(links[k], date, hour) == Some(r)
  {
    if links == [] then NotAvailable
    else match LinkVerdict(links[0], date, hour)
      case Some(c) => c
      case None =>
        var r := Choose(links[1..], date, hour);
        assert r != NotAvailable ==> exists k :: 1 <= k < |links| && LinkVerdict(links[k], date, hour) == Some(r) by {
          if r != NotAvailable {
            var k :| 0 <= k < |links[1..]| && LinkVerdict(links[1..][k], date, hour) == Some(r);
            assert links[1..][k] == links[k + 1];
          }
        }
        r
  }

  /** `'SUCCESS' in result.text`: the test `make_booking` applies to the portal's reply. */
  function BookingSucceeded(body: string): (r: bool)
    ensures r <==> exists i: nat :: OccursAt("SUCCESS", body, i)
  {
    Contains(body, "SUCCESS")
  }

  /**
   * One call of `book(facility, date, hour)` on a fetched listing. `reply(url)`
   * is the body the portal sends back when the form of the slot page at `url`
   * is submitted; it is consulted only for the chosen link.
   */
  function BookFacility(facility: int, date: string, hour: string, listing: seq<Link>,
                        reply: string -> string): (r: Outcome)
    ensures r.Returned? <==> Choose(listing, date, hour).Book?
    ensures r.Returned? ==> (r.booked <==> exists i: nat :: OccursAt("SUCCESS", reply(Choose(listing, date, hour).url), i))
    ensures r == Raised(AlreadyBookedError(facility, date, hour)) <==> Choose(listing, date, hour) == AlreadyBooked
    ensures r == Raised(NotAvailableError(facility, date, hour)) <==> Choose(listing, date, hour) == NotAvailable
  {
    match Choose(listing, date, hour)
    case Book(url) => Returned(BookingSucceeded(reply(url)))
    case AlreadyBooked => Raised(AlreadyBookedError(facility, date, hour))
    case NotAvailable => Raised(NotAvailableError(facility, date, hour))
  }

  /** The facility names accepted on the command line and the portal's number for each. */
  const Facilities: map<string, int> := map[
    "bbq1" := 1, "bbq2" := 2, "bbq3" := 3, "bbq4" := 4, "bbq5" := 5,
    "bbq6" := 6, "bbq7" := 7, "bbq8" := 8, "bbq9" := 9,
    "function_room" := 10, "tennis1" := 11, "tennis2" := 12,
    "badminton" := 13, "golf_driving" := 14, "golf_putting" := 15
  ]

  // ---------------------------------------------------------------------------
  // Properties of the scan
  // ---------------------------------------------------------------------------

  /** The first link in page order that has a verdict decides the outcome. */
  lemma {:induction false} ChooseFirstHit(links: seq<Link>, date: string, hour: string, k: nat)
    requires k < |links| && LinkVerdict(links[k], date, hour).Some?
    requires forall j :: 0 <= j < k ==> LinkVerdict(links[j], date, hour).None?
    ensures Choose(links, date, hour) == LinkVerdict(links[k], date, hour).value
  {
    if k > 0 {
      assert LinkVerdict(links[0], date, hour).None?;
      ChooseFirstHit(links[1..], date, hour, k - 1);
    }
  }

  /** Nothing is available exactly when no link has a verdict; in particular for an empty listing. */
  lemma {:induction false} NotAvailableIffNoVerdict(links: seq<Link>, date: string, hour: string)
    ensures Choose(links, date, hour) == NotAvailable <==>
            forall j :: 0 <= j < |links| ==> LinkVerdict(links[j], date, hour).None?
  {
    if links != [] && LinkVerdict(links[0], date, hour).None? {
      NotAvailableIffNoVerdict(links[1..], date, hour);
      assert forall j :: 1 <= j < |links| ==> links[j] == links[1..][j - 1];
    }
  }

  /**
   * A link whose date and start time both equal the request is booked when no
   * earlier link decided, even if its URL also carries `cancel=true`.
   */
  lemma OpenSlotBooked(links: seq<Link>, date: string, hour: string, k: nat)
    requires k < |links|
    requires DateOf(links[k].url) == Some(date) && TimeOf(links[k].url) == Some(hour)
    requires forall j :: 0 <= j < k ==> LinkVerdict(links[j], date, hour).None?
    ensures Choose(links, date, hour) == Book(links[k].url)
  {
    ChooseFirstHit(links, date, hour, k);
  }

  /**
   * A cancellation link on the requested date, whose start time is missing or
   * different and whose anchor text starts with the requested hour, reports the
   * slot as already booked when no earlier link decided.
   */
  lemma CancelLinkAlreadyBooked(links: seq<Link>, date: string, hour: string, k: nat)
    requires k < |links|
    requires DateOf(links[k].url) == Some(date) && TimeOf(links[k].url) != Some(hour)
    requires Contains(links[k].url, "cancel=true") && hour <= links[k].text
    requires forall j :: 0 <= j < k ==> LinkVerdict(links[j], date, hour).None?
    ensures Choose(links, date, hour) == AlreadyBooked
  {
    ChooseFirstHit(links, date, hour, k);
  }

  /** A booking is only ever of a listed link whose date and start time both equal the request. */
  lemma ChooseBooksOnlyRequestedSlot(links: seq<Link>, date: string, hour: string)
    ensures var r := Choose(links, date, hour);
            r.Book? ==> exists k :: 0 <= k < |links| && links[k].url == r.url &&
                                    DateOf(links[k].url) == Some(date) && TimeOf(links[k].url) == Some(hour)
  {
  }

  /**
   * Already-booked only ever comes from a listed `cancel=true` link on the
   * requested date, with a missing or different start time, whose anchor text
   * starts with the hour.
   */
  lemma ChooseAlreadyBookedOnlyFromCancelLink(links: seq<Link>, date: string, hour: string)
    ensures Choose(links, date, hour) == AlreadyBooked ==>
            exists k :: 0 <= k < |links| && DateOf(links[k].url) == Some(date) && TimeOf(links[k].url) != Some(hour) &&
                        Contains(links[k].url, "cancel=true") && hour <= links[k].text
  {
  }

  /** A link without a date, or with another date, never decides: removing it changes nothing. */
  lemma {:induction false} OtherDateIgnored(before: seq<Link>, link: Link, after: seq<Link>, date: string, hour: string)
    requires DateOf(link.url) != Some(date)
    ensures Choose(before + [link] + after, date, hour) == Choose(before + after, date, hour)
  {
    var whole, rest := before + [link] + after, before + after;
    assert LinkVerdict(link, date, hour).None?;
    if before == [] {
      assert whole[0] == link && whole[1..] == rest;
    } else {
      OtherDateIgnored(before[1..], link, after, date, hour);
      assert whole[0] == rest[0] == before[0];
      assert whole[1..] == before[1..] + [link] + after;
      assert rest[1..] == before[1..] + after;
    }
  }

  /** The extracted date is the text after `dDate=` at the leftmost match. */
  lemma DateOfIsLeftmost(url: string, i: nat)
    requires MatchesAt(DatePattern, url, i)
    requires forall j: nat :: j < i ==> !MatchesAt(DatePattern, url, j)
    ensures DateOf(url) == Some(url[i + 6 .. i + 16])
  {
    SearchIsLeftmostGroup(DatePattern, url, 6, 16, i);
  }

  /** The extracted time is the START time (group 1) of the leftmost `cDesc=` match. */
  lemma TimeOfIsLeftmostStart(url: string, i: nat)
    requires MatchesAt(TimePattern, url, i)
    requires forall j: nat :: j < i ==> !MatchesAt(TimePattern, url, j)
    ensures TimeOf(url) == Some(url[i + 6 .. i + 10])
  {
    SearchIsLeftmostGroup(TimePattern, url, 6, 10, i);
  }

  /** The extracted date is always `dddd-dd-dd`, so a request in another format is never available. */
  lemma MalformedDateNotAvailable(links: seq<Link>, date: string, hour: string)
    requires !IsDateShape(date)
    ensures Choose(links, date, hour) == NotAvailable
  {
    NotAvailableIffNoVerdict(links, date, hour);
  }

  /**
   * The start time is compared exactly with the request, so an hour that is not
   * four digits never books (the already-booked branch can still fire).
   */
  lemma MalformedHourNeverBooks(links: seq<Link>, date: string, hour: string)
    requires !IsHourShape(hour)
    ensures !Choose(links, date, hour).Book?
  {
  }

  /** The facility numbers run from 1 to 15 and no two names share one. */
  lemma FacilityNumbers()
    ensures forall name :: name in Facilities ==> 1 <= Facilities[name] <= 15
    ensures forall a, b :: a in Facilities && b in Facilities && Facilities[a] == Facilities[b] ==> a == b
  {
  }

  /** The url of the example below. */
  const ExampleUrl := "dDate=2024-06-01&cDesc=1400-1600"

  lemma ExampleDate()
    ensures DateOf(ExampleUrl) == Some("2024-06-01")
  {
    assert MatchesAt(DatePattern, ExampleUrl, 0);
    assert ExampleUrl[6..16] == "2024-06-01" by {
      forall k | 0 <= k < 10 ensures ExampleUrl[6..16][k] == "2024-06-01"[k] {
        assert ExampleUrl[6..16][k] == ExampleUrl[k + 6];
      }
    }
  }

  lemma ExampleTime()
    ensures TimeOf(ExampleUrl) == Some("1400")
  {
    forall j: nat | j < 17 ensures !MatchesAt(TimePattern, ExampleUrl, j) {
      assert TimePattern[0] == Lit('c');
      assert ExampleUrl[j] != 'c';
    }
    assert MatchesAt(TimePattern, ExampleUrl, 17);
    assert ExampleUrl[23..27] == "1400" by {
      forall k | 0 <= k < 4 ensures ExampleUrl[23..27][k] == "1400"[k] {
        assert ExampleUrl[23..27][k] == ExampleUrl[k + 23];
      }
    }
  }

  /** A listing whose only link is the requested open slot books that link. */
  lemma ExampleListing()
    ensures Choose([Link("1400-1600", ExampleUrl)], "2024-06-01", "1400") == Book(ExampleUrl)
  {
    ExampleDate();
    ExampleTime();
    OpenSlotBooked([Link("1400-1600", ExampleUrl)], "2024-06-01", "1400", 0);
  }
}
