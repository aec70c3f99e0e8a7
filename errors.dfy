/** The exceptions the services throw, and the storage errors they catch or let through. */
module Errors {

  /** A write rejected by the store: Prisma's P2002 (unique constraint, with its target) or P2025 (a record to
      update or connect does not exist). */
  datatype DbError = UniqueViolation(target: string) | RecordNotFound

  datatype Entity = RoleEntity | UserEntity | PermissionEntity

  /** The three `ForbiddenException` messages of the permission guard. */
  datatype Denial = NotAuthenticated | NoRoleAssigned | InsufficientPermissions

  datatype ConflictReason =
    | RoleNameTaken(roleName: string)
    | PermissionNameTaken(permissionName: string)
    | CedulaTaken       // "Esta cédula ya está registrada por otro usuario"
    | DuplicateRecord   // "Ya existe un registro con estos datos"

  datatype AuthFailure = EmailRequired | UnknownUser

  datatype RecoveryFailure = EmailNotRegistered | InvalidOrExpiredToken

  datatype Error =
    | NotFound(entity: Entity, id: int)        // NotFoundException
    | Conflict(reason: ConflictReason)         // ConflictException
    | Forbidden(denial: Denial)                // ForbiddenException
    | Unauthorized(failure: AuthFailure)       // UnauthorizedException
    | BadRequest(recovery: RecoveryFailure)    // BadRequestException
    | UserNotInRequest                         // the plain Error of UsersController.getProfile
    | Rethrown(cause: DbError)                 // a storage error the service does not translate
}
