/** The records of src/db/models.py, one datatype per table row. Prices are integer cents
    and date-times are integer timestamps that order the way the dates do. */
module Models {

  /** A date-time, as a count of seconds. */
  type Timestamp = int

  /** An amount of money in cents. */
  type Cents = int

  datatype Role = Customer | Sales

  datatype User = User(uid: int, pwd: string, role: Role)

  datatype CustomerAccount = CustomerAccount(cid: int, name: string, email: string)

  datatype Product = Product(pid: int, name: string, category: string, price: Cents,
                             stockCount: int, descr: string)

  datatype Order = Order(ono: int, cid: int, sessionNo: int, odate: Timestamp, shippingAddress: string)

  datatype OrderLine = OrderLine(ono: int, lineNo: int, pid: int, qty: int, uprice: Cents)

  datatype Session = Session(cid: int, sessionNo: int, startTime: Timestamp, endTime: EndTime)

  /** The nullable `end_time` column. */
  datatype EndTime = Open | Ended(at: Timestamp)

  datatype ViewedProduct = ViewedProduct(cid: int, sessionNo: int, ts: Timestamp, pid: int)

  datatype Search = Search(cid: int, sessionNo: int, ts: Timestamp, query: string)

  /** A cart row, and also the entry `list_cart` returns. */
  datatype CartItem = CartItem(cid: int, sessionNo: int, pid: int, qty: int)
}
