/**
 * Named privileges of household users (`Privilege.Has` and its wrappers):
 * an Owner has every privilege, a Member holds only what its flags grant.
 */
module Privilege {
  import opened Entities

  const CreateTodo: string := "CreateTodo"
  const EditTodo: string := "EditTodo"
  const CreateUser: string := "CreateUser"

  function Has(user: User, privilege: string): (r: bool)
    ensures r ==> user.role == Owner || privilege in {CreateTodo, EditTodo, CreateUser}
  {
    if user.role == Owner then true
    else if privilege == CreateTodo then true
    else if privilege == EditTodo then user.canEditAllTodos
    else if privilege == CreateUser then user.canCreateUser
    else false
  }

  function CanCreateTodo(user: User): (r: bool)
    ensures r
  {
    Has(user, CreateTodo)
  }

  function CanEditTodo(user: User): (r: bool)
    ensures r <==> user.role == Owner || user.canEditAllTodos
  {
    Has(user, EditTodo)
  }

  function CanCreateUser(user: User): (r: bool)
    ensures r <==> user.role == Owner || user.canCreateUser
  {
    Has(user, CreateUser)
  }

  /** An Owner holds every privilege, names the switch does not know included. */
  lemma OwnerHasEverything(user: User, privilege: string)
    requires user.role == Owner
    ensures Has(user, privilege)
  {
  }

  /** For a Member the three known names follow the flags, and any other name is denied. */
  lemma MemberPrivileges(user: User, privilege: string)
    requires user.role == Member
    ensures Has(user, CreateTodo)
    ensures Has(user, EditTodo) <==> user.canEditAllTodos
    ensures Has(user, CreateUser) <==> user.canCreateUser
    ensures privilege !in {CreateTodo, EditTodo, CreateUser} ==> !Has(user, privilege)
  {
  }

  /** The privileges are about role and flags only: two users that agree on those agree on every privilege. */
  lemma HasDependsOnRoleAndFlags(a: User, b: User, privilege: string)
    requires a.role == b.role && a.canEditAllTodos == b.canEditAllTodos && a.canCreateUser == b.canCreateUser
    ensures Has(a, privilege) == Has(b, privilege)
  {
  }
}
