/**
 * The errors the request handlers raise (each an HTTP exception carrying a
 * status code and a message) and the codes they map to.
 */
module Http {

  datatype Error =
    | OrganizationNotFound            // create_initiative: no organization-type user with that id
    | InitiativeNotFound              // apply_to_initiative, get_initiative
    | AlreadyApplied                  // apply_to_initiative: the (volunteer, initiative) pair exists
    | ParticipationNotFound           // approve_participation
    | CompletedParticipationNotFound  // create_certificate: missing, not completed, or a join fails

  /** Every error is a client error: 400 for a repeated application, 404 otherwise. */
  function StatusCode(e: Error): int
  {
    if e == AlreadyApplied then 400 else 404
  }
}
