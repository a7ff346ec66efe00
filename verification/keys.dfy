/** Key types shared by the entities. */
module Keys {

  /** A `System.Guid`; only equality matters, so any natural number stands for one. */
  type Guid = nat

  /** ASP.NET Identity user ids are strings. */
  type UserId = string
}
