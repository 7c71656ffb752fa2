/**
 * The record shapes of the household store (one datatype per table row) and
 * the requests and responses the services exchange.
 *
 * A `Guid` is a 128-bit value; a `DateTime` is a count of 100-nanosecond ticks
 * since 0001-01-01 00:00:00, as .NET stores it.
 */
module Entities {
  import opened Wrappers

  const GuidBound: nat := 0x1_0000_0000_0000_0000_0000_0000_0000_0000

  /** `Guid`: the 128-bit number whose 32 hex digits `Guid.ToString()` prints. */
  type Uuid = n: nat | n < GuidBound

  /** C# `int`. */
  type Int32 = x: int | -0x8000_0000 <= x < 0x8000_0000

  /** Unchecked C# `int` arithmetic: the two's-complement wrap-around of a mathematical result. */
  function Wrap32(x: int): (r: Int32)
    ensures (r - x) % 0x1_0000_0000 == 0
    ensures -0x8000_0000 <= x < 0x8000_0000 ==> r == x
  {
    var m := x % 0x1_0000_0000;
    if m < 0x8000_0000 then m else m - 0x1_0000_0000
  }

  /** `DateTime` as ticks. */
  type DateTime = nat

  datatype UserRole = Member | Owner

  datatype Tenant = Tenant(
    id: Uuid,
    name: string,
    createdAt: DateTime,
    isActive: bool,
    settingsJson: Option<string>,
    billingPlanId: Option<Uuid>)

  /** `PricePerMonth` is a `decimal`; it is carried as an exact rational. */
  datatype BillingPlan = BillingPlan(
    id: Uuid,
    name: string,
    code: string,
    maxUsers: int,
    pricePerMonth: real,
    promotionPercent: int)

  /** A password digest as stored: PBKDF2 of a secret under a salt (see module `Hashing`). */
  datatype Digest = Pbkdf2(secret: string, salt: string)

  datatype User = User(
    id: Uuid,
    tenantId: Uuid,
    email: string,
    displayName: string,
    passwordHash: Digest,
    passwordSalt: Option<string>,
    role: UserRole,
    canViewAllTodos: bool,
    canEditAllTodos: bool,
    canCreateUser: bool,
    isActive: bool,
    createdAt: DateTime,
    lastLoginAt: Option<DateTime>)

  datatype ApiClient = ApiClient(
    id: Uuid,
    tenantId: Uuid,
    clientId: string,
    clientSecretHash: Digest,
    name: Option<string>,
    isActive: bool,
    createdAt: DateTime)

  datatype TodoItem = TodoItem(
    id: Uuid,
    tenantId: Uuid,
    createdByUserId: Uuid,
    assignedToUserId: Option<Uuid>,
    title: string,
    notes: Option<string>,
    isDone: bool,
    completedAt: Option<DateTime>,
    dueDate: Option<DateTime>,
    createdAt: DateTime)

  /** The composite key (TodoItemId, UserId) is the whole row. */
  datatype TodoItemVote = TodoItemVote(todoItemId: Uuid, userId: Uuid)

  datatype SupportTicket = SupportTicket(
    id: Uuid,
    tenantId: Uuid,
    subject: string,
    body: string,
    status: string,
    createdAt: DateTime,
    updatedAt: Option<DateTime>)

  datatype SupportTicketReply = SupportTicketReply(
    id: Uuid,
    supportTicketId: Uuid,
    body: string,
    isFromStaff: bool,
    createdAt: DateTime)

  datatype UserPreference = UserPreference(userId: Uuid, itemsPerPage: int)

  /** The JWT a sign-in issues, as the claims it carries (signing and expiry are not modelled). */
  datatype Token =
    | UserToken(sub: Uuid, tenant: Uuid, email: string, role: UserRole,
                canViewAllTodos: bool, canEditAllTodos: bool, canCreateUser: bool)
    | ClientToken(sub: Uuid, clientId: string, tenant: Uuid)

  /** `AuthResult(Success, Token, Error)`. */
  datatype AuthResult = AuthResult(success: bool, token: Option<Token>, error: Option<string>)
}
