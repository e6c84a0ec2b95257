/** The click handler of the "Add to Calendar" button
    (components/add-to-calendar-button.tsx): it turns the event page's record
    into the encoder's `EventDetails` and downloads the calendar file under
    its default name. */
module AddToCalendarButton {
  import opened JsString
  import opened Ics

  datatype LocationType = Online | Physical

  /** The `event` prop of the button. The two instants are given as the UTC
      fields of `new Date(startDate)` and `new Date(endDate)`. */
  datatype PageEvent = PageEvent(
    title: string,
    description: string,
    startDate: DateTime,
    endDate: DateTime,
    city: string,
    state: Option<string>,
    country: string,
    locationType: LocationType,
    venue: Option<string>,
    address: Option<string>,
    slug: string)

  const OnlineLocation: string := "Online Event"

  /** The region shown last: the state when it is truthy, else the country. */
  function Region(event: PageEvent): (region: string)
    ensures Truthy(event.state) ==> region == event.state.value
    ensures !Truthy(event.state) ==> region == event.country
  {
    OrElse(event.state, event.country)
  }

  /** Where the comma after the address sits in the raw template. */
  function CommaAt(event: PageEvent): nat {
    |OrElse(event.venue, "")| + 1 + |OrElse(event.address, "")|
  }

  /** The location template before trimming: venue, a space, address, then the
      city and the region, each after a comma and a space. A falsy venue or
      address leaves its slot empty. */
  function RawLocation(event: PageEvent): (raw: string)
    ensures StartsWith(raw, OrElse(event.venue, "") + " ")
    ensures EndsWith(raw, ", " + event.city + ", " + Region(event))
    ensures |raw| == |OrElse(event.venue, "")| + |OrElse(event.address, "")| + |event.city| + |Region(event)| + 5
    ensures raw[|OrElse(event.venue, "")| + 1..CommaAt(event)] == OrElse(event.address, "")
  {
    var head := OrElse(event.venue, "") + " ";
    var address := OrElse(event.address, "");
    var tail := ", " + event.city + ", " + Region(event);
    var raw := head + address + tail;
    assert raw[..|head|] == head;
    assert raw[|head|..|head| + |address|] == address;
    assert raw[|raw| - |tail|..] == tail;
    assert raw == OrElse(event.venue, "") + " " + OrElse(event.address, "") + ", " + event.city + ", " + Region(event);
    raw
  }

  /** The `location` the handler passes on. */
  function ComposeLocation(event: PageEvent): (location: string)
    ensures event.locationType == Online ==> location == OnlineLocation
  {
    if event.locationType == Online then OnlineLocation else Trim(RawLocation(event))
  }

  /** The event page the calendar entry links back to. */
  function EventPageUrl(origin: string, slug: string): (url: string)
    ensures StartsWith(url, origin) && EndsWith(url, slug)
    ensures |url| == |origin| + 8 + |slug| && url[|origin|..|url| - |slug|] == "/events/"
  {
    var url := origin + "/events/" + slug;
    assert url[..|origin|] == origin;
    assert url[|origin|..|url| - |slug|] == "/events/";
    assert url[|url| - |slug|..] == slug;
    url
  }

  /** The `EventDetails` record built by the handler; `origin` is
      `window.location.origin`. */
  function ToEventDetails(event: PageEvent, origin: string): (details: EventDetails)
    ensures details.title == event.title && details.description == event.description
    ensures details.startTime == event.startDate && details.endTime == event.endDate
    ensures details.location == ComposeLocation(event)
    ensures details.url == Some(EventPageUrl(origin, event.slug)) && Truthy(details.url)
  {
    var url := EventPageUrl(origin, event.slug);
    assert url[|origin|] == '/';
    EventDetails(event.title, event.description, event.startDate, event.endDate,
                 ComposeLocation(event), Some(url))
  }

  /** A click: the calendar file of the page's event, named after its title. */
  function AddToCalendar(event: PageEvent, origin: string, now: nat): (d: Download)
    requires ValidDateTime(event.startDate) && ValidDateTime(event.endDate)
    ensures d.filename == DefaultFilename(event.title)
  {
    DownloadIcsFile(ToEventDetails(event, origin), None, now)
  }

  // ---------------------------------------------------------------------
  // The location
  // ---------------------------------------------------------------------

  /** An online event's location ignores every address field. */
  lemma OnlineLocationFixed(event: PageEvent, venue: Option<string>, address: Option<string>,
                            city: string, state: Option<string>, country: string)
    requires event.locationType == Online
    ensures ComposeLocation(event.(venue := venue, address := address, city := city,
                                   state := state, country := country)) == "Online Event"
  {
  }

  lemma RawLocationShape(event: PageEvent)
    ensures var raw := RawLocation(event);
      var c := CommaAt(event);
      && |raw| == c + |event.city| + 4 + |Region(event)|
      && raw[c..] == ", " + event.city + ", " + Region(event)
  {
    var v, a := OrElse(event.venue, ""), OrElse(event.address, "");
    var tail := ", " + event.city + ", " + Region(event);
    assert RawLocation(event) == v + " " + a + tail;
    assert (v + " " + a + tail)[|v| + 1 + |a|..] == tail;
  }

  /** A physical event's location always holds the city between two commas:
      trimming never reaches into the middle of the template. */
  lemma PhysicalLocationKeepsCity(event: PageEvent)
    requires event.locationType == Physical
    ensures exists k :: OccursAt(ComposeLocation(event), ", " + event.city + ",", k)
  {
    var raw := RawLocation(event);
    var c := CommaAt(event);
    var stretch := ", " + event.city + ",";
    assert OccursAt(raw, stretch, c) by {
      RawLocationShape(event);
      assert raw[c..c + |stretch|] == raw[c..][..|stretch|];
    }
    assert stretch[0] !in WhiteSpaceChars && stretch[|stretch| - 1] !in WhiteSpaceChars by {
      assert stretch[0] == ',' && stretch[|stretch| - 1] == ',';
      CommaIsNotWhiteSpace();
    }
    TrimKeepsOccurrence(raw, stretch, c);
    assert OccursAt(ComposeLocation(event), stretch, c - LeadingRun(raw, WhiteSpaceChars));
  }

  /** When the region ends in a non-white-space character, the location ends
      with the whole tail of the template: a comma, the city, a comma and the
      region. */
  lemma PhysicalLocationEndsWithRegion(event: PageEvent)
    requires event.locationType == Physical
    requires |Region(event)| > 0 && Region(event)[|Region(event)| - 1] !in WhiteSpaceChars
    ensures EndsWith(ComposeLocation(event), ", " + event.city + ", " + Region(event))
  {
    var raw := RawLocation(event);
    var c := CommaAt(event);
    var region := Region(event);
    RawLocationShape(event);
    assert raw[|raw| - 1] == region[|region| - 1] by {
      assert raw[c..][|raw| - 1 - c] == region[|region| - 1];
    }
    assert raw[c] == ',' by {
      assert raw[c] == raw[c..][0];
    }
    CommaIsNotWhiteSpace();
    TrimKeepsTail(raw, c);
  }

  /** With neither venue nor address, the location is the city and region
      behind a leading comma (the dangling separators are not cleaned up). */
  lemma PhysicalLocationWithoutAddress(event: PageEvent)
    requires event.locationType == Physical
    requires !Truthy(event.venue) && !Truthy(event.address)
    requires |Region(event)| > 0 && Region(event)[|Region(event)| - 1] !in WhiteSpaceChars
    ensures ComposeLocation(event) == ", " + event.city + ", " + Region(event)
  {
    var raw := RawLocation(event);
    RawLocationShape(event);
    assert CommaAt(event) == 1;
    assert raw[0] in WhiteSpaceChars by {
      assert raw == " " + (", " + event.city + ", " + Region(event));
      SpaceIsWhiteSpace();
    }
    assert raw[1] !in WhiteSpaceChars by {
      assert raw[1] == raw[1..][0] == ',';
      CommaIsNotWhiteSpace();
    }
    assert LeadingRun(raw, WhiteSpaceChars) == 1;
    assert raw[|raw| - 1] == raw[1..][|raw| - 2];
    StripEndsKept(raw, WhiteSpaceChars);
  }

  /** When the venue is truthy and starts, and the region ends, with a
      non-white-space character, trimming changes nothing: the location is
      the whole template, venue and address included. */
  lemma PhysicalLocationUntrimmed(event: PageEvent)
    requires event.locationType == Physical && Truthy(event.venue)
    requires event.venue.value[0] !in WhiteSpaceChars
    requires |Region(event)| > 0 && Region(event)[|Region(event)| - 1] !in WhiteSpaceChars
    ensures ComposeLocation(event)
            == event.venue.value + " " + OrElse(event.address, "") + ", " + event.city + ", " + Region(event)
  {
    var raw := RawLocation(event);
    RawLocationShape(event);
    assert raw[0] == event.venue.value[0];
    assert raw[|raw| - 1] == raw[CommaAt(event)..][|raw| - 1 - CommaAt(event)];
    StripFixed(raw, WhiteSpaceChars);
  }

  /** A physical location is already trimmed. */
  lemma PhysicalLocationTrimmed(event: PageEvent)
    requires event.locationType == Physical
    ensures Trim(ComposeLocation(event)) == ComposeLocation(event)
  {
    TrimIdempotent(RawLocation(event));
  }

  // ---------------------------------------------------------------------
  // The downloaded file
  // ---------------------------------------------------------------------

  /** The button's file always carries the page URL, so it has fourteen
      lines with the URL line eleventh. */
  lemma AddToCalendarHasUrl(event: PageEvent, origin: string, now: nat)
    requires ValidDateTime(event.startDate) && ValidDateTime(event.endDate)
    ensures var lines := IcsLines(ToEventDetails(event, origin), now);
      |lines| == 14 && lines[10] == "URL:" + EventPageUrl(origin, event.slug)
  {
    var details := ToEventDetails(event, origin);
    IcsLinesFrame(details, now);
    IcsLinesUrl(details, now);
  }

  /** End to end: the file reads back to the clock reading, both instants to
      the second (in whatever order they were given), the title and
      description as typed, the composed location and the page URL. */
  lemma AddToCalendarRoundTrip(event: PageEvent, origin: string, now: nat)
    requires ValidDateTime(event.startDate) && ValidDateTime(event.endDate)
    requires '\n' !in origin && '\n' !in event.slug
    ensures ReadIcs(AddToCalendar(event, origin, now).content) == Some(CalendarView(
              now,
              event.startDate.(millisecond := 0),
              event.endDate.(millisecond := 0),
              event.title,
              event.description,
              ComposeLocation(event),
              Some(origin + "/events/" + event.slug)))
  {
    var details := ToEventDetails(event, origin);
    assert '\n' !in "/events/";
    DownloadIcsFileRoundTrip(details, None, now);
  }

  /** The literal facts the example rests on. */
  lemma PuneText(city: string, region: string)
    requires city == "Pune" && region == "MH"
    ensures |region| > 0 && region[|region| - 1] !in WhiteSpaceChars
    ensures ", " + city + ", " + region == ", Pune, MH"
  {
    assert region[1] == 'H';
  }

  /** A worked example: a physical event in Pune with no venue or address. */
  lemma PuneExample(event: PageEvent)
    requires event.locationType == Physical && event.city == "Pune"
    requires event.venue == None && event.address == None && event.state == Some("MH")
    ensures ComposeLocation(event) == ", Pune, MH"
  {
    var region := Region(event);
    assert region == "MH";
    PuneText(event.city, region);
    PhysicalLocationWithoutAddress(event);
  }
}
