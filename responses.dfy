/**
 * The outcomes a view can end in besides success: the HTTP statuses the
 * views return or raise.
 */
module Responses {

  datatype ViewError =
    | NotFound        // get_object_or_404 found no row (404)
    | Forbidden       // the request token does not match (403)
    | Closed          // the request no longer accepts responses
    | NoParticipant   // the session names no participant (400)
    | BadRequest      // the posted busy slots could not be read (400)
    | Conflict        // a unique constraint refused the save (IntegrityError)
}
