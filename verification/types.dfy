/** The part of the `User` record (`src/lib/types.ts`) the core reads,
    and the role comparison `isRoleAbove`, whose source
    (`src/lib/roles`) is not part of this model: it is taken as a
    parameter wherever it is used. */
module Types {

  datatype User = User(id: string, role: string)

  /** `isRoleAbove(role, threshold)`, supplied by the caller. */
  type RoleCheck = (string, string) -> bool
}
