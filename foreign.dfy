/**
 * The PHP library functions the pages call but whose behaviour is not
 * part of this model.  Each is a field of `Library`, so every statement
 * about the pages holds whatever these functions compute.
 */
module Foreign {
  import opened Bytes

  datatype Library = Library(
    /** `htmlspecialchars($s)` */
    htmlEscape: Bytes -> Bytes,
    /** `nl2br($s)` */
    nl2br: Bytes -> Bytes,
    /** `filter_var($s, FILTER_SANITIZE_EMAIL)` */
    sanitizeEmail: Bytes -> Bytes,
    /** `filter_var($s, FILTER_VALIDATE_EMAIL)` is truthy */
    validEmail: Bytes -> bool,
    /** `password_hash($s, PASSWORD_DEFAULT)`, with its salt drawn for this call */
    passwordHash: Bytes -> Bytes,
    /** `password_verify($password, $hash)` */
    passwordVerify: (Bytes, Bytes) -> bool)
}
