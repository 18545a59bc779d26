/** The helpers of includes/functions.php: pagination, late-day counting, barcode and
    rupiah formatting, and the session slots for login, role, CSRF token and flash
    message. Dates are day numbers and moments are seconds on one clock. */
module Functions {
  import opened Php
  import opened Config
  import opened Messages

  /** A calendar date as a day number, counted from any fixed origin. */
  type Day = int

  const SecondsPerDay: int := 86400

  /** The moment a date string without a time denotes: its midnight. */
  function Midnight(d: Day): int {
    d * SecondsPerDay
  }

  // ---------------------------------------------------------------- pagination

  datatype Pagination = Pagination(totalPages: int, offset: int, currentPage: int)

  /** get_pagination: the page count is the ceiling of totalItems / itemsPerPage, the
      offset is the index of the first row of currentPage, and the page is passed on. */
  function GetPagination(totalItems: nat, currentPage: int, itemsPerPage: int): (p: Pagination)
    requires itemsPerPage > 0
    ensures p.totalPages >= 0
    ensures (p.totalPages - 1) * itemsPerPage < totalItems <= p.totalPages * itemsPerPage
    ensures p.offset == (currentPage - 1) * itemsPerPage
    ensures p.currentPage == currentPage
  {
    var q := (totalItems + itemsPerPage - 1) / itemsPerPage;
    assert q * itemsPerPage <= totalItems + itemsPerPage - 1 < (q + 1) * itemsPerPage;
    assert (q - 1) * itemsPerPage == q * itemsPerPage - itemsPerPage;
    Pagination(q, (currentPage - 1) * itemsPerPage, currentPage)
  }

  /** Every page from 1 to totalPages starts at an existing row, and the last page
      reaches the end of the rows. */
  lemma PageStartsInside(totalItems: nat, page: int, itemsPerPage: int)
    requires itemsPerPage > 0
    requires 1 <= page <= GetPagination(totalItems, page, itemsPerPage).totalPages
    ensures var p := GetPagination(totalItems, page, itemsPerPage);
      0 <= p.offset < totalItems &&
      (page == p.totalPages ==> totalItems <= p.offset + itemsPerPage)
  {
  }

  /** The listings call get_pagination with ITEMS_PER_PAGE: ten rows a page, and a
      requested page inside the count starts at an existing row. */
  lemma ListingPages(totalItems: nat, page: int)
    requires 1 <= page <= GetPagination(totalItems, page, ItemsPerPage).totalPages
    ensures var p := GetPagination(totalItems, page, ItemsPerPage);
      && p.totalPages == (totalItems + 9) / 10
      && p.offset == (page - 1) * 10
      && 0 <= p.offset < totalItems
  {
    PageStartsInside(totalItems, page, ItemsPerPage);
  }

  // ---------------------------------------------------------------- late days

  /** calculate_late_days on two moments: 0 when the return is at or before the due
      moment, otherwise the number of whole days between them (DateTime::diff's %a). */
  function LateDays(due: int, returned: int): (days: nat)
    ensures returned <= due ==> days == 0
    ensures returned > due ==>
      days * SecondsPerDay <= returned - due < (days + 1) * SecondsPerDay
  {
    if returned <= due then 0 else (returned - due) / SecondsPerDay
  }

  /** A later return never counts fewer late days. */
  lemma LateDaysMonotone(due: int, returned: int, later: int)
    requires returned <= later
    ensures LateDays(due, returned) <= LateDays(due, later)
  {
  }

  /** For two dates the late days are the number of days from the due date to the
      return date, or 0 when the return is on or before the due date. */
  lemma LateDaysBetweenDates(due: Day, returned: Day)
    ensures LateDays(Midnight(due), Midnight(returned)) ==
      if returned > due then returned - due else 0
  {
  }

  // ---------------------------------------------------------------- barcode

  /** generate_barcode, given the value mt_rand(1, 999999) drew: "BK" and the value as
      six zero-padded digits. */
  function GenerateBarcode(random: int): (code: string)
    requires 1 <= random <= 999999
    ensures |code| == 8 && code[..2] == "BK"
  {
    "BK" + ZeroPadded(random, 6)
  }

  /** After "BK" a barcode is six digits that read back as the value drawn, exactly as
      str_pad($random, 6, '0', STR_PAD_LEFT) writes it. */
  lemma GenerateBarcodeDigits(random: int)
    requires 1 <= random <= 999999
    ensures AllDigits(GenerateBarcode(random)[2..])
    ensures DigitsValue(GenerateBarcode(random)[2..]) == random
    ensures GenerateBarcode(random)[2..] == PadLeft(DecimalString(random), 6, '0')
  {
    Pow10Values();
    ZeroPaddedDigits(random, 6);
    ZeroPaddedIsStrPad(random, 6);
    assert GenerateBarcode(random)[2..] == ZeroPadded(random, 6);
  }

  // ---------------------------------------------------------------- rupiah

  /** The digits of n in groups of three separated by '.', as number_format(n, 0, ',', '.')
      writes them. */
  function GroupThousands(n: nat): string {
    if n < 1000 then DecimalString(n)
    else GroupThousands(n / 1000) + "." + PadLeft(DecimalString(n % 1000), 3, '0')
  }

  /** A digit group of one to three digits, followed by any number of '.' and three digits. */
  predicate Grouped(s: string)
    decreases |s|
  {
    if |s| <= 3 then 1 <= |s| && AllDigits(s)
    else |s| >= 5 && s[|s| - 4] == '.' && AllDigits(s[|s| - 3..]) && Grouped(s[..|s| - 4])
  }

  /** s without its '.' separators. */
  function StripDots(s: string): string {
    if s == [] then [] else (if s[0] == '.' then [] else [s[0]]) + StripDots(s[1..])
  }

  lemma {:induction false} StripDotsAppend(a: string, b: string)
    ensures StripDots(a + b) == StripDots(a) + StripDots(b)
  {
    if a == [] {
      assert a + b == b;
    } else {
      assert (a + b)[1..] == a[1..] + b;
      StripDotsAppend(a[1..], b);
    }
  }

  lemma {:induction false} StripDotsDigits(s: string)
    requires AllDigits(s)
    ensures StripDots(s) == s
  {
    if s != [] {
      StripDotsDigits(s[1..]);
    }
  }

  /** One more group of three digits after a well-formed grouping is well formed. */
  lemma GroupedExtend(g: string, t: string)
    requires Grouped(g) && |t| == 3 && AllDigits(t)
    ensures Grouped(g + "." + t)
  {
    var s := g + "." + t;
    assert s[..|s| - 4] == g && s[|s| - 3..] == t;
  }

  lemma StripDotsExtend(g: string, t: string)
    requires AllDigits(t)
    ensures StripDots(g + "." + t) == StripDots(g) + t
  {
    StripDotsAppend(g + ".", t);
    StripDotsAppend(g, ".");
    StripDotsDigits(t);
    assert StripDots(".") == [];
  }

  /** The grouping is well formed, has no leading zero, and reads back as n once the
      separators are dropped. */
  lemma {:induction false} GroupThousandsCorrect(n: nat)
    ensures Grouped(GroupThousands(n))
    ensures AllDigits(StripDots(GroupThousands(n)))
    ensures DigitsValue(StripDots(GroupThousands(n))) == n
    ensures n > 0 ==> GroupThousands(n)[0] != '0'
  {
    if n < 1000 {
      Pow10Values();
      DecimalLength(n, 3);
      StripDotsDigits(DecimalString(n));
      DecimalRoundTrip(n);
    } else {
      var g := GroupThousands(n / 1000);
      var low := DecimalString(n % 1000);
      DecimalLength(n % 1000, 3);
      ZeroPadValue(low, 3);
      DecimalRoundTrip(n % 1000);
      var t := PadLeft(low, 3, '0');
      GroupThousandsCorrect(n / 1000);
      assert GroupThousands(n) == g + "." + t;
      GroupedExtend(g, t);
      StripDotsExtend(g, t);
      DigitsValueAppend(StripDots(g), t);
      Pow10Values();
      assert DigitsValue(StripDots(g) + t) == (n / 1000) * 1000 + n % 1000;
    }
  }

  /** format_rupiah for an integer amount: "Rp ", a minus sign for a negative amount, then
      its digits grouped in threes by '.', with no decimal part. */
  function FormatRupiah(amount: int): (text: string)
    ensures |text| >= 4 && text[..3] == "Rp "
    ensures amount >= 0 ==>
      (Grouped(text[3..]) && AllDigits(StripDots(text[3..])) &&
       DigitsValue(StripDots(text[3..])) == amount)
    ensures amount < 0 ==>
      (text[3] == '-' && Grouped(text[4..]) && AllDigits(StripDots(text[4..])) &&
       DigitsValue(StripDots(text[4..])) == -amount)
    ensures amount == 0 ==> text == "Rp 0"
    ensures amount > 0 ==> text[3] != '0'
    ensures amount < 0 ==> |text| >= 5 && text[4] != '0'
    ensures ',' !in text
  {
    var magnitude := if amount < 0 then -amount else amount;
    GroupThousandsCorrect(magnitude);
    var digits := GroupThousands(magnitude);
    GroupedHasNoComma(digits);
    if amount < 0 then
      var text := "Rp -" + digits;
      assert text[4..] == digits && text[4] == digits[0];
      text
    else
      var text := "Rp " + digits;
      assert text[3..] == digits && text[3] == digits[0];
      text
  }

  lemma {:induction false} GroupedHasNoComma(s: string)
    requires Grouped(s)
    ensures ',' !in s
  {
    if |s| > 3 {
      GroupedHasNoComma(s[..|s| - 4]);
      assert s == s[..|s| - 4] + s[|s| - 4..];
    }
  }

  // ---------------------------------------------------------------- session

  /** The parts of $_SESSION the core reads and writes. */
  class Session {
    var userId: Option<int>
    var userRole: Option<string>
    var csrfToken: Option<string>
    var flash: Option<Flash>

    constructor (userId: Option<int>, userRole: Option<string>, csrfToken: Option<string>)
      ensures this.userId == userId && this.userRole == userRole
      ensures this.csrfToken == csrfToken && flash == None
    {
      this.userId := userId;
      this.userRole := userRole;
      this.csrfToken := csrfToken;
      flash := None;
    }

    /** is_logged_in: a user id is stored. */
    function IsLoggedIn(): bool
      reads this
    {
      userId.Some?
    }

    /** has_role: a logged-in session whose stored role is exactly role. */
    function HasRole(role: string): (b: bool)
      reads this
      ensures b ==> IsLoggedIn()
      ensures b <==> userId.Some? && userRole == Some(role)
    {
      IsLoggedIn() && userRole.Some? && userRole.value == role
    }

    /** validate_csrf_token: the submitted token is accepted exactly when a token is
        stored and equals it. */
    function ValidateCsrfToken(token: string): (ok: bool)
      reads this
      ensures ok <==> csrfToken == Some(token)
    {
      csrfToken.Some? && csrfToken.value == token
    }

    /** generate_csrf_token, given the hex text of the random bytes it would draw: an
        existing non-empty token is kept, otherwise the fresh one is stored. */
    method GenerateCsrfToken(freshHex: string) returns (token: string)
      requires |freshHex| == 2 * CsrfTokenLength
      modifies this`csrfToken
      ensures csrfToken == Some(token) && !Empty(token)
      ensures old(csrfToken).Some? && !Empty(old(csrfToken).value) ==> csrfToken == old(csrfToken)
      ensures old(csrfToken).None? || Empty(old(csrfToken).value) ==> token == freshHex
    {
      if csrfToken.None? || Empty(csrfToken.value) {
        csrfToken := Some(freshHex);
      }
      token := csrfToken.value;
    }

    /** set_flash_message: the slot holds the new message, whatever it held before. */
    method SetFlashMessage(message: Flash)
      modifies this`flash
      ensures flash == Some(message)
    {
      flash := Some(message);
    }

    /** get_flash_message: returns the stored message (None for null) and empties the slot. */
    method GetFlashMessage() returns (message: Option<Flash>)
      modifies this`flash
      ensures message == old(flash) && flash == None
    {
      message := flash;
      flash := None;
    }
  }

  /** The guard at the head of every POST handler: a token was submitted and
      validate_csrf_token accepts it. */
  function CsrfAccepted(session: Session, submitted: Option<string>): (ok: bool)
    reads session
    ensures ok <==> submitted.Some? && session.csrfToken == submitted
  {
    submitted.Some? && session.ValidateCsrfToken(submitted.value)
  }

  /** An administrator page lets a POST through: an admin session and an accepted token. */
  predicate AdminAdmits(session: Session, csrf: Option<string>)
    reads session
  {
    session.HasRole("admin") && CsrfAccepted(session, csrf)
  }

  /** Reading the flash twice: the first read returns the stored message, the second null. */
  method ReadFlashTwice(session: Session) returns (first: Option<Flash>, second: Option<Flash>)
    modifies session`flash
    ensures first == old(session.flash) && second == None && session.flash == None
  {
    first := session.GetFlashMessage();
    second := session.GetFlashMessage();
  }

  /** Generating a token twice: the second call returns the token the first one stored. */
  method GenerateCsrfTokenTwice(session: Session, freshHex: string, otherHex: string)
    returns (first: string, second: string)
    requires |freshHex| == 2 * CsrfTokenLength && |otherHex| == 2 * CsrfTokenLength
    modifies session`csrfToken
    ensures first == second && session.ValidateCsrfToken(first)
  {
    first := session.GenerateCsrfToken(freshHex);
    second := session.GenerateCsrfToken(otherHex);
  }

  /** The host functions the pages call and the model does not interpret:
      sanitize_input (trim and htmlspecialchars) and is_valid_email (filter_var). */
  datatype Host = Host(sanitize: string -> string, validEmail: string -> bool)
}
