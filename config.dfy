/** The constants the core uses: those defined in config/config.php, and the two literals
    of users.php's checks. */
module Config {
  /** ITEMS_PER_PAGE: the page size of every listing. */
  const ItemsPerPage: int := 10
  /** LATE_FINE_PER_DAY: the fine, in rupiah, for each day a loan is returned late. */
  const LateFinePerDay: nat := 1000
  /** The number of random bytes behind a CSRF token (written out as hex); equal to
      CSRF_TOKEN_LENGTH. */
  const CsrfTokenLength: nat := 32
  /** role_id of the administrator role; such accounts cannot be deleted. */
  const AdminRoleId: int := 1
  /** The minimum length of a new password. */
  const MinPasswordLength: nat := 6
}
