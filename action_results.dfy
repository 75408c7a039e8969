/** The HTTP outcomes the controllers return, one constructor per ASP.NET helper
    they call: `Ok(..)`, `CreatedAtAction(..)`, `NoContent()`, `NotFound()` and
    `BadRequest()`. */
module ActionResults {

  datatype ActionResult<+T> =
    | Ok(value: T)
    | Created(value: T)
    | NoContent
    | NotFound
    | BadRequest
}
