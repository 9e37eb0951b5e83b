/**
 * The handler shape shared by controllers and middlewares
 * (app/controllers/controller.go, app/middlewares/middleware.go).
 */
module Controllers {
  import opened Wrappers
  import opened Json
  import opened Errors
  import opened Requests

  /**
   * How a handler call ends: it returns a payload and an error (either may
   * be `nil`), or it panics with a value whose `%v` printing is `printed`.
   */
  datatype HandlerResult =
    | Returned(data: Option<JsonObject>, err: Option<ErrorValue>)
    | Panicked(printed: string)

  /** `controllers.Controller`. */
  type Controller = RequestView -> HandlerResult

  /** `middlewares.Middleware`: wraps a controller in another. */
  type Middleware = Controller -> Controller
}
