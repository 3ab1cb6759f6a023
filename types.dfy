/** The records the client exchanges with the REST backend (src/types.ts),
    and the shape of a backend call's outcome. */
module Types {

  /** The outcome of one HTTP call: the response body, or a failure (a
      rejected promise, caught by the handler's `catch`). */
  datatype Response<+T> = Ok(data: T) | Failed

  datatype Option<+T> = None | Some(value: T)

  datatype MenuItem = MenuItem(
    id: int,
    name: string,
    price: string,        // a decimal written as text
    availability: int,
    category: string)

  datatype OrderItem = OrderItem(
    id: int,
    menu_item: int,       // the id of the menu item ordered
    menu_item_name: string,
    price: string,
    quantity: int)

  datatype Status = InProgress | Completed

  datatype Order = Order(
    id: int,
    table_number: int,
    placed_by: string,
    status: Status,
    created_at: string,
    total_price: real,
    items: seq<OrderItem>)

  datatype Role = Manager | Employee

  datatype User = User(
    id: int,
    username: string,
    email: string,
    first_name: string,
    last_name: string,
    role: Role,
    is_superuser: bool,
    is_staff: bool,
    is_active: bool,
    password: string)

  function MenuItemId(m: MenuItem): int { m.id }

  function UserId(u: User): int { u.id }

  /** `o.status === "in_progress"`: an order that is not yet completed. */
  function IsInProgress(o: Order): (r: bool)
    ensures r <==> o.status != Completed
  {
    o.status == InProgress
  }
}
