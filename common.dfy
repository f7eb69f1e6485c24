/** Types shared by the entities and the services: money, the error kinds that
    the exception handler distinguishes, and the wrappers that carry them. */
module Common {

  /** Money is stored with scale 2 (two decimal places), so it is modelled as
      an exact whole number of cents. */
  type Cents = int

  /** The column of a user record that must be unique. */
  datatype UniqueField = Username | Email

  /** One constructor per exception kind raised by the services. */
  datatype Error =
    | NotFound                      // ResourceNotFoundException (HTTP 404)
    | Duplicate(field: UniqueField) // DuplicateResourceException (HTTP 409)
    | InsufficientStock             // InsufficientStockException (HTTP 400)
    | IllegalState                  // IllegalStateException (HTTP 400)
    | ConstraintViolation           // an entity constraint rejected at persist or update time
    | Internal                      // anything else, e.g. a unique column violated on insert (HTTP 500)

  /** A value that Java would represent with a nullable reference. */
  datatype Option<+T> = None | Some(value: T) {
    function GetOr(default: T): T {
      match this
      case Some(v) => v
      case None => default
    }
  }

  /** The outcome of a service call: a value, or the exception it throws. */
  datatype Result<+T> = Ok(value: T) | Err(error: Error)

  /** `findById(id).orElseThrow(ResourceNotFoundException)` over a table keyed by id. */
  function Lookup<T>(table: map<nat, T>, id: nat): (r: Result<T>)
    ensures r.Ok? <==> id in table
    ensures r.Ok? ==> r.value == table[id]
    ensures r.Err? ==> r.error == NotFound
  {
    if id in table then Ok(table[id]) else Err(NotFound)
  }
}
